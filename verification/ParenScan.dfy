/** The quote-aware bracket scanner and argument splitter of
    `scripts/check-temp-path-guardrails.ts`. */
module ParenScan {
  import opened Text

  /** The contents of a `QuoteScanState`. */
  datatype Quotes = Quotes(quote: Option<char>, escaped: bool)

  const OUTSIDE: Quotes := Quotes(None, false)

  predicate IsQuote(c: char) {
    c == '\'' || c == '"' || c == '`'
  }

  /** What one character does to the quote state. */
  function Next(q: Quotes, c: char): Quotes {
    if q.quote.None? then (if IsQuote(c) then q.(quote := Some(c)) else q)
    else if q.escaped then q.(escaped := false)
    else if c == '\\' then q.(escaped := true)
    else if q.quote == Some(c) then q.(quote := None)
    else q
  }

  function QuotesAfter(s: string): Quotes {
    if s == "" then OUTSIDE else Next(QuotesAfter(s[..|s| - 1]), s[|s| - 1])
  }

  /** Character `i` is code: outside quotes and not itself a quote. */
  predicate Code(s: string, i: nat)
    requires i < |s|
  {
    QuotesAfter(s[..i]).quote.None? && !IsQuote(s[i])
  }

  /** Opening minus closing parentheses in the code of `s`. */
  function Depth(s: string): int {
    if s == "" then 0
    else
      var n := |s| - 1;
      Depth(s[..n]) + if !Code(s, n) then 0 else if s[n] == '(' then 1 else if s[n] == ')' then -1 else 0
  }

  /** A depth that never falls below zero, as the splitter counts it. */
  function Clamped(s: string, open: char, close: char): nat {
    if s == "" then 0
    else
      var n := |s| - 1;
      var d := Clamped(s[..n], open, close);
      if !Code(s, n) then d
      else if s[n] == open then d + 1
      else if s[n] == close && d > 0 then d - 1
      else d
  }

  // ----------------------------------------------------------------------- the quote state

  class QuoteScanState {
    var quote: Option<char>
    var escaped: bool

    constructor ()
      ensures Contents() == OUTSIDE
    {
      quote, escaped := None, false;
    }

    function Contents(): Quotes
      reads this
    {
      Quotes(quote, escaped)
    }
  }

  method BeginQuotedSection(state: QuoteScanState, ch: char) returns (began: bool)
    modifies state
    ensures began <==> IsQuote(ch)
    ensures state.Contents() == if began then Quotes(Some(ch), old(state.escaped)) else old(state.Contents())
  {
    if ch != '\'' && ch != '"' && ch != '`' {
      return false;
    }
    state.quote := Some(ch);
    return true;
  }

  method ConsumeQuotedChar(state: QuoteScanState, ch: char) returns (consumed: bool)
    modifies state
    ensures consumed <==> old(state.quote).Some?
    ensures state.Contents() == if consumed then Next(old(state.Contents()), ch) else old(state.Contents())
  {
    if state.quote.None? {
      return false;
    }
    if state.escaped {
      state.escaped := false;
      return true;
    }
    if ch == '\\' {
      state.escaped := true;
      return true;
    }
    if state.quote == Some(ch) {
      state.quote := None;
    }
    return true;
  }

  // -------------------------------------------------------------------- the closing paren

  /** The text after the opening parenthesis. */
  function After(source: string, openIndex: nat): string {
    if openIndex < |source| then source[openIndex + 1..] else ""
  }

  /** Position `k` of `rest` closes the parenthesis opened just before it. */
  predicate Closes(rest: string, k: nat) {
    k < |rest| && Depth(rest[..k + 1]) == -1
  }

  /** The least closing index, or -1 when none exists. */
  ghost predicate IsMatching(source: string, openIndex: nat, r: int) {
    var rest := After(source, openIndex);
    && (r == -1 <==> forall k: nat :: !Closes(rest, k))
    && (r != -1 ==> openIndex < r < |source| && Closes(rest, r - openIndex - 1)
                    && forall k: nat | k < r - openIndex - 1 :: !Closes(rest, k))
  }

  method FindMatchingParen(source: string, openIndex: nat) returns (r: int)
    ensures IsMatching(source, openIndex, r)
  {
    ghost var rest := After(source, openIndex);
    var depth := 1;
    var quoteState := new QuoteScanState();
    var i := openIndex + 1;
    while i < |source|
      invariant openIndex + 1 <= i && (openIndex < |source| ==> i <= |source|)
      invariant fresh(quoteState)
      invariant openIndex < |source| ==> quoteState.Contents() == QuotesAfter(rest[..i - openIndex - 1])
      invariant openIndex < |source| ==> depth == 1 + Depth(rest[..i - openIndex - 1]) && depth > 0
      invariant openIndex < |source| ==> forall k: nat | k < i - openIndex - 1 :: !Closes(rest, k)
      decreases |source| - i
    {
      var ch := source[i];
      ghost var k := i - openIndex - 1;
      assert rest[..k + 1][..k] == rest[..k] && rest[k] == ch;
      var consumed := ConsumeQuotedChar(quoteState, ch);
      if !consumed {
        var began := BeginQuotedSection(quoteState, ch);
        if !began {
          if ch == '(' {
            depth := depth + 1;
          } else if ch == ')' {
            depth := depth - 1;
            if depth == 0 {
              assert Closes(rest, k);
              return i;
            }
          }
        }
      }
      i := i + 1;
    }
    return -1;
  }

  /** Up to the closing parenthesis the depth never falls below zero; there it is zero, and the
      scanner is outside quotes. */
  lemma {:induction false} BeforeClosing(rest: string, k: nat, j: nat)
    requires Closes(rest, k) && (forall i: nat | i < k :: !Closes(rest, i)) && j <= k
    ensures Depth(rest[..j]) >= 0
    ensures j == k ==> Depth(rest[..k]) == 0 && QuotesAfter(rest[..k]).quote.None?
  {
    assert forall i | 0 <= i < |rest| :: rest[..i + 1][..i] == rest[..i];
    if j > 0 {
      BeforeClosing(rest, k, j - 1);
      assert !Closes(rest, j - 1);
    }
  }

  /** On such a slice the splitter's clamp on parentheses is never hit: its depth is the true
      one at every position, and it ends at depth zero outside quotes. */
  lemma {:induction false} ClampNeverHit(s: string, j: nat)
    requires j <= |s| && forall i | 0 <= i <= |s| :: Depth(s[..i]) >= 0
    ensures Clamped(s[..j], '(', ')') == Depth(s[..j])
  {
    if j > 0 {
      ClampNeverHit(s, j - 1);
      assert s[..j][..j - 1] == s[..j - 1];
    }
  }

  /** What the caller relies on, put together. */
  lemma SliceIsBalanced(source: string, openIndex: nat, close: int)
    requires openIndex < close < |source| && Closes(After(source, openIndex), close - openIndex - 1)
    requires forall k: nat | k < close - openIndex - 1 :: !Closes(After(source, openIndex), k)
    ensures var s := source[openIndex + 1..close];
      && (forall j | 0 <= j <= |s| :: Clamped(s[..j], '(', ')') == Depth(s[..j]) >= 0)
      && Depth(s) == 0 && QuotesAfter(s).quote.None?
  {
    var rest, k := After(source, openIndex), close - openIndex - 1;
    var s := source[openIndex + 1..close];
    forall j | 0 <= j <= |s| ensures Depth(s[..j]) >= 0 {
      assert s[..j] == rest[..j];
      BeforeClosing(rest, k, j);
    }
    forall j | 0 <= j <= |s| ensures Clamped(s[..j], '(', ')') == Depth(s[..j]) {
      ClampNeverHit(s, j);
    }
    assert s == rest[..k];
    BeforeClosing(rest, k, k);
  }

  // ------------------------------------------------------------------------- the splitter

  /** A comma where the splitter cuts: code, at depth zero of all three kinds of brackets. */
  predicate Cut(s: string, i: nat) {
    && i < |s| && s[i] == ',' && Code(s, i)
    && Clamped(s[..i], '(', ')') == 0 && Clamped(s[..i], '[', ']') == 0 && Clamped(s[..i], '{', '}') == 0
  }

  /** The positions of the cuts below `n`, in order. */
  function CutsBelow(s: string, n: nat): (cs: seq<nat>)
    requires n <= |s|
    ensures forall i | 0 <= i < |cs| :: cs[i] < n
  {
    if n == 0 then [] else CutsBelow(s, n - 1) + if Cut(s, n - 1) then [n - 1] else []
  }

  /** Piece `j`, from just after the cut before it up to the cut after it. */
  function Piece(s: string, cs: seq<nat>, j: nat): string
    requires j <= |cs| && (forall i | 0 <= i < |cs| :: cs[i] < |s|)
    requires forall i, k | 0 <= i < k < |cs| :: cs[i] < cs[k]
  {
    s[if j == 0 then 0 else cs[j - 1] + 1..if j == |cs| then |s| else cs[j]]
  }

  ghost predicate Ordered(s: string, cs: seq<nat>) {
    && (forall i | 0 <= i < |cs| :: cs[i] < |s|)
    && (forall i, j | 0 <= i < j < |cs| :: cs[i] < cs[j])
  }

  lemma {:induction false} CutsAreOrdered(s: string, n: nat)
    requires n <= |s|
    ensures Ordered(s, CutsBelow(s, n)) && Ordered(s[..n], CutsBelow(s, n))
    ensures forall i :: i in CutsBelow(s, n) <==> 0 <= i < n && Cut(s, i)
  {
    if n > 0 {
      CutsAreOrdered(s, n - 1);
    }
  }

  /** The pieces between the cuts, untrimmed; one more than there are cuts. */
  ghost function Pieces(s: string, cs: seq<nat>): (ps: seq<string>)
    requires Ordered(s, cs)
    ensures |ps| == |cs| + 1
  {
    seq(|cs| + 1, j requires 0 <= j <= |cs| => Piece(s, cs, j))
  }

  function Joined(ps: seq<string>): string {
    if ps == [] then ""
    else if |ps| == 1 then ps[0]
    else Joined(ps[..|ps| - 1]) + "," + ps[|ps| - 1]
  }

  /** Nothing but the cutting commas is lost between the pieces. */
  lemma {:induction false} PiecesJoin(s: string, cs: seq<nat>)
    requires Ordered(s, cs) && forall i | 0 <= i < |cs| :: s[cs[i]] == ','
    ensures Joined(Pieces(s, cs)) == s
  {
    var ps := Pieces(s, cs);
    if cs == [] {
      assert ps == [Piece(s, cs, 0)] && Piece(s, cs, 0) == s;
    } else {
      var n := |cs| - 1;
      var front := s[..cs[n]];
      assert Ordered(front, cs[..n]);
      assert forall i | 0 <= i < n :: front[cs[..n][i]] == ',';
      PiecesJoin(front, cs[..n]);
      PiecesBeforeLast(s, cs);
      assert s == front + "," + ps[n + 1];
    }
  }

  lemma PiecesBeforeLast(s: string, cs: seq<nat>)
    requires Ordered(s, cs) && cs != []
    ensures var n := |cs| - 1;
      && Ordered(s[..cs[n]], cs[..n])
      && Pieces(s, cs) == Pieces(s[..cs[n]], cs[..n]) + [s[cs[n] + 1..]]
  {
    var n := |cs| - 1;
    var front, ps := s[..cs[n]], Pieces(s, cs);
    assert Ordered(front, cs[..n]);
    forall j | 0 <= j <= n ensures Piece(s, cs, j) == Piece(front, cs[..n], j) {
      var a, b := if j == 0 then 0 else cs[j - 1] + 1, cs[j];
      assert front[a..b] == s[a..b];
    }
    assert Piece(s, cs, n + 1) == s[cs[n] + 1..];
  }

  function TrimAll(ps: seq<string>): (r: seq<string>)
    ensures |r| == |ps|
  {
    if ps == [] then [] else TrimAll(ps[..|ps| - 1]) + [Trim(ps[|ps| - 1])]
  }

  /** Every piece trimmed, and a blank last piece dropped. */
  function Arguments(ps: seq<string>): seq<string>
    requires ps != []
  {
    var all := TrimAll(ps);
    if all[|all| - 1] == "" then all[..|all| - 1] else all
  }

  method SplitTopLevelArguments(source: string) returns (out: seq<string>)
    ensures Ordered(source, CutsBelow(source, |source|))
    ensures out == Arguments(Pieces(source, CutsBelow(source, |source|)))
  {
    out := [];
    var current := "";
    var parenDepth, bracketDepth, braceDepth := 0, 0, 0;
    var quoteState := new QuoteScanState();
    var i := 0;
    SplitStart(source);
    hide Clamped, QuotesAfter, Code, Cut, SplitSoFar, Pieces, Trim;
    while i < |source|
      invariant i <= |source| && fresh(quoteState)
      invariant quoteState.Contents() == QuotesAfter(source[..i])
      invariant parenDepth == Clamped(source[..i], '(', ')')
      invariant bracketDepth == Clamped(source[..i], '[', ']')
      invariant braceDepth == Clamped(source[..i], '{', '}')
      invariant SplitSoFar(source, i, out, current)
      decreases |source| - i
    {
      var ch := source[i];
      CharStep(source, i);
      SplitStep(source, i, out, current);
      if quoteState.quote.Some? {
        current := current + [ch];
        var _ := ConsumeQuotedChar(quoteState, ch);
      } else {
        var began := BeginQuotedSection(quoteState, ch);
        if began {
          current := current + [ch];
        } else if ch == '(' {
          parenDepth := parenDepth + 1;
          current := current + [ch];
        } else if ch == ')' {
          if parenDepth > 0 {
            parenDepth := parenDepth - 1;
          }
          current := current + [ch];
        } else if ch == '[' {
          bracketDepth := bracketDepth + 1;
          current := current + [ch];
        } else if ch == ']' {
          if bracketDepth > 0 {
            bracketDepth := bracketDepth - 1;
          }
          current := current + [ch];
        } else if ch == '{' {
          braceDepth := braceDepth + 1;
          current := current + [ch];
        } else if ch == '}' {
          if braceDepth > 0 {
            braceDepth := braceDepth - 1;
          }
          current := current + [ch];
        } else if ch == ',' && parenDepth == 0 && bracketDepth == 0 && braceDepth == 0 {
          out := out + [Trim(current)];
          current := "";
        } else {
          current := current + [ch];
        }
      }
      i := i + 1;
    }
    SplitEnd(source, out, current);
    if Trim(current) != "" {
      out := out + [Trim(current)];
    }
  }

  function NextClamped(d: nat, code: bool, c: char, open: char, close: char): nat {
    if !code then d else if c == open then d + 1 else if c == close && d > 0 then d - 1 else d
  }

  /** One more character, for every part of the splitter's state. */
  lemma CharStep(s: string, i: nat)
    requires i < |s|
    ensures var q, c := QuotesAfter(s[..i]), s[i];
      var code := q.quote.None? && !IsQuote(c);
      && QuotesAfter(s[..i + 1]) == Next(q, c)
      && Clamped(s[..i + 1], '(', ')') == NextClamped(Clamped(s[..i], '(', ')'), code, c, '(', ')')
      && Clamped(s[..i + 1], '[', ']') == NextClamped(Clamped(s[..i], '[', ']'), code, c, '[', ']')
      && Clamped(s[..i + 1], '{', '}') == NextClamped(Clamped(s[..i], '{', '}'), code, c, '{', '}')
      && (Cut(s, i) <==> code && c == ',' && Clamped(s[..i], '(', ')') == 0
                         && Clamped(s[..i], '[', ']') == 0 && Clamped(s[..i], '{', '}') == 0)
  {
    assert s[..i + 1][..i] == s[..i];
  }

  lemma SplitStart(s: string)
    ensures QuotesAfter(s[..0]) == OUTSIDE
    ensures Clamped(s[..0], '(', ')') == Clamped(s[..0], '[', ']') == Clamped(s[..0], '{', '}') == 0
    ensures SplitSoFar(s, 0, [], "")
  {
    assert s[..0] == "";
    assert Pieces("", []) == [Piece("", [], 0)];
    assert Pieces("", [])[..0] == [];
  }

  /** The first `i` characters split: all pieces but the last are in `out`, trimmed. */
  ghost predicate SplitSoFar(s: string, i: nat, out: seq<string>, current: string) {
    && i <= |s| && Ordered(s[..i], CutsBelow(s, i))
    && var ps := Pieces(s[..i], CutsBelow(s, i));
       out == TrimAll(ps[..|ps| - 1]) && current == ps[|ps| - 1]
  }

  /** A cut ends the last piece and begins an empty one. */
  lemma CutStep(s: string, i: nat)
    requires i < |s| && Cut(s, i) && Ordered(s[..i], CutsBelow(s, i))
    ensures Ordered(s[..i + 1], CutsBelow(s, i + 1))
    ensures Pieces(s[..i + 1], CutsBelow(s, i + 1)) == Pieces(s[..i], CutsBelow(s, i)) + [""]
  {
    var cs, cs' := CutsBelow(s, i), CutsBelow(s, i + 1);
    CutsAreOrdered(s, i + 1);
    assert cs' == cs + [i];
    hide *;
    PiecesBeforeLast(s[..i + 1], cs');
    assert cs'[..|cs|] == cs && s[..i + 1][..i] == s[..i] && s[..i + 1][i + 1..] == "";
  }

  lemma CharacterStep(s: string, i: nat)
    requires i < |s| && !Cut(s, i)
    ensures CutsBelow(s, i + 1) == CutsBelow(s, i)
  {}

  lemma SplitStep(s: string, i: nat, out: seq<string>, current: string)
    requires SplitSoFar(s, i, out, current) && i < |s|
    ensures Cut(s, i) ==> SplitSoFar(s, i + 1, out + [Trim(current)], "")
    ensures !Cut(s, i) ==> SplitSoFar(s, i + 1, out, current + [s[i]])
  {
    hide Cut, Trim, TrimAll, Pieces, CutsBelow, Ordered;
    var cs := CutsBelow(s, i);
    var ps := Pieces(s[..i], cs);
    if Cut(s, i) {
      CutStep(s, i);
      assert (ps + [""])[..|ps|] == ps;
      TrimAllSnoc(ps);
    } else {
      CharacterStep(s, i);
      OneMoreChar(s, i, cs);
    }
  }

  lemma TrimAllSnoc(ps: seq<string>)
    requires ps != []
    ensures TrimAll(ps) == TrimAll(ps[..|ps| - 1]) + [Trim(ps[|ps| - 1])]
  {}

  /** A character that is not a cut extends the last piece. */
  lemma OneMoreChar(s: string, i: nat, cs: seq<nat>)
    requires i < |s| && Ordered(s[..i], cs)
    ensures Ordered(s[..i + 1], cs)
    ensures var ps, ps' := Pieces(s[..i], cs), Pieces(s[..i + 1], cs);
      ps'[..|cs|] == ps[..|cs|] && ps'[|cs|] == ps[|cs|] + [s[i]]
  {
    assert Ordered(s[..i + 1], cs);
    var n := |cs|;
    forall j | 0 <= j < n ensures Piece(s[..i], cs, j) == Piece(s[..i + 1], cs, j) {
      var a, b := if j == 0 then 0 else cs[j - 1] + 1, cs[j];
      assert s[..i][a..b] == s[..i + 1][a..b];
    }
    var a := if n == 0 then 0 else cs[n - 1] + 1;
    assert s[..i + 1][a..i + 1] == s[..i][a..i] + [s[i]];
  }

  lemma SplitEnd(s: string, out: seq<string>, current: string)
    requires SplitSoFar(s, |s|, out, current)
    ensures Ordered(s, CutsBelow(s, |s|))
    ensures Arguments(Pieces(s, CutsBelow(s, |s|))) == if Trim(current) != "" then out + [Trim(current)] else out
  {
    assert s[..|s|] == s;
    var ps := Pieces(s, CutsBelow(s, |s|));
    assert TrimAll(ps) == out + [Trim(current)];
  }

  /** All cuts are top-level commas and every top-level comma is a cut; the pieces between them
      and those commas make up the source. */
  lemma SplitLosesNothing(s: string)
    ensures var cs := CutsBelow(s, |s|);
      && Ordered(s, cs)
      && (forall i :: i in cs <==> 0 <= i < |s| && Cut(s, i))
      && Joined(Pieces(s, cs)) == s
  {
    CutsAreOrdered(s, |s|);
    var cs := CutsBelow(s, |s|);
    assert forall i | 0 <= i < |cs| :: cs[i] in cs;
    PiecesJoin(s, cs);
  }
}
