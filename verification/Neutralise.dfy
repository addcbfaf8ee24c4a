/** Defanging placeholders the user typed (`_neutralise_user_placeholders` of `pii/masker.py`). */
module Neutralise {
  import opened Placeholders

  /** Every narrow match gets a fullwidth `＜` for its first character. */
  function Defang(s: string): (r: string)
    ensures |r| == |s|
    ensures forall i | 0 <= i < |s| :: r[i] == s[i] || (s[i] == '<' && r[i] == '＜')
  {
    if s == "" then ""
    else
      var n := MatchLength(Narrow, s);
      if n > 0 then
        assert s[..n][0] == '<' by { PlaceholderShape(Narrow, s[..n]); }
        "＜" + s[1..n] + Defang(s[n..])
      else [s[0]] + Defang(s[1..])
  }

  /** Keeps every length and position; only `<` may turn into the fullwidth `＜`. */
  function NeutraliseUserPlaceholders(s: string): (r: string)
    ensures |r| == |s|
    ensures forall i | 0 <= i < |s| :: r[i] == s[i] || (s[i] == '<' && r[i] == '＜')
  {
    if '<' !in s then s else Defang(s)
  }

  lemma {:induction false} NoOpenNoMatch(s: string)
    requires '<' !in s
    ensures Matches(Narrow, s) == []
  {
    PlainRun(Narrow, s, "", map[]);
    assert s + "" == s;
  }

  /** A match at the start of the defanged text would have been one of the text itself. */
  lemma NoNewMatch(s: string)
    requires s != "" && MatchLength(Narrow, s) == 0
    ensures MatchLength(Narrow, Defang(s)) == 0
  {
    var r := Defang(s);
    var n := MatchLength(Narrow, r);
    if n > 0 {
      PlaceholderShape(Narrow, r[..n]);
      hide Defang;
      assert forall i | 0 <= i < n :: r[..n][i] == s[i];
      assert r[..n] == s[..n];
      MatchFound(Narrow, s, n);
    }
  }

  lemma {:induction false} DefangNoMatches(s: string)
    ensures Matches(Narrow, Defang(s)) == []
  {
    if s != "" {
      var n := MatchLength(Narrow, s);
      if n > 0 {
        DefangNoMatches(s[n..]);
        PlaceholderShape(Narrow, s[..n]);
        var u := "＜" + s[1..n];
        assert forall i | 1 <= i < n :: u[i] == s[..n][i];
        assert Defang(s) == u + Defang(s[n..]);
        PlainRun(Narrow, u, Defang(s[n..]), map[]);
      } else {
        DefangNoMatches(s[1..]);
        NoNewMatch(s);
        assert Defang(s)[1..] == Defang(s[1..]);
      }
    }
  }

  /** Neutralised text holds no placeholder. */
  lemma NeutralisedMatchFree(s: string)
    ensures MatchFree(Narrow, NeutraliseUserPlaceholders(s))
  {
    if '<' !in s {
      NoOpenNoMatch(s);
    } else {
      DefangNoMatches(s);
    }
    MatchFreeIffNoMatches(Narrow, NeutraliseUserPlaceholders(s));
  }

  lemma {:induction false} DefangFree(s: string)
    requires Matches(Narrow, s) == []
    ensures Defang(s) == s
  {
    if s != "" {
      DefangFree(s[1..]);
    }
  }

  /** Text is left alone exactly when it holds no placeholder. */
  lemma NeutraliseIdentityIff(s: string)
    ensures NeutraliseUserPlaceholders(s) == s <==> MatchFree(Narrow, s)
  {
    NeutralisedMatchFree(s);
    MatchFreeIffNoMatches(Narrow, s);
    if MatchFree(Narrow, s) && '<' in s {
      DefangFree(s);
    }
  }

  lemma NeutraliseIdempotent(s: string)
    ensures NeutraliseUserPlaceholders(NeutraliseUserPlaceholders(s)) == NeutraliseUserPlaceholders(s)
  {
    NeutralisedMatchFree(s);
    NeutraliseIdentityIff(NeutraliseUserPlaceholders(s));
  }

  /** A placeholder stands at position `i`. */
  ghost predicate Opens(s: string, i: nat) {
    exists p :: IsPlaceholder(Narrow, p) && At(s, i, p)
  }

  lemma OpensIsMatch(s: string, i: nat)
    requires i < |s|
    ensures Opens(s, i) <==> MatchLength(Narrow, s[i..]) > 0
  {
    var n := MatchLength(Narrow, s[i..]);
    if n > 0 {
      assert s[i..][..n] == s[i..i + n];
      assert At(s, i, s[i..i + n]);
    }
    if p :| IsPlaceholder(Narrow, p) && At(s, i, p) {
      PlaceholderShape(Narrow, p);
      assert s[i..][..|p|] == p;
      MatchFound(Narrow, s[i..], |p|);
    }
  }

  lemma OpensLater(s: string, c: nat, i: nat)
    requires c <= i < |s|
    ensures Opens(s, i) <==> Opens(s[c..], i - c)
  {
    OpensIsMatch(s, i);
    OpensIsMatch(s[c..], i - c);
    assert s[c..][i - c..] == s[i..];
  }

  lemma NoneInside(s: string, n: nat, i: nat)
    requires 0 < n == MatchLength(Narrow, s) && 0 < i < n
    ensures !Opens(s, i)
  {
    PlaceholderShape(Narrow, s[..n]);
    assert s[i] == s[..n][i];
    OpensIsMatch(s, i);
    assert s[i..][0] == s[i];
  }

  lemma DefangStep(s: string)
    requires s != ""
    ensures var n := MatchLength(Narrow, s);
      Defang(s) == if n > 0 then "＜" + s[1..n] + Defang(s[n..]) else [s[0]] + Defang(s[1..])
  {}

  /** What is changed, exactly: each character that begins a placeholder, into `＜`. */
  lemma {:induction false} DefangedAt(s: string, i: nat)
    requires i < |s|
    ensures Defang(s)[i] == if Opens(s, i) then '＜' else s[i]
  {
    hide Defang, Opens, IsPlaceholder, MatchLength;
    var n := MatchLength(Narrow, s);
    DefangStep(s);
    OpensIsMatch(s, 0);
    assert s[0..] == s;
    var c := if n > 0 then n else 1;
    if i >= c {
      DefangedAt(s[c..], i - c);
      OpensLater(s, c, i);
    } else if i > 0 {
      NoneInside(s, n, i);
    }
  }

  /** So for neutralising. */
  lemma NeutralisedAt(s: string, i: nat)
    requires i < |s|
    ensures NeutraliseUserPlaceholders(s)[i] == if Opens(s, i) then '＜' else s[i]
  {
    hide Defang, Opens;
    if '<' !in s {
      assert '<' !in s[i..];
      OpensIsMatch(s, i);
    } else {
      DefangedAt(s, i);
    }
  }
}
