/** What the bracket scanner and the argument splitter find in code that is written out from
    a syntax tree: string literals with escapes, nested groups, and everything else
    (`scripts/check-temp-path-guardrails.ts`). Nothing here is said in terms of the scanner's
    own state. */
module ParenGrammar {
  import opened Text
  import opened ParenScan

  datatype Kind = Round | Square | Curly

  function Open(k: Kind): char {
    match k
    case Round => '('
    case Square => '['
    case Curly => '{'
  }

  function Close(k: Kind): char {
    match k
    case Round => ')'
    case Square => ']'
    case Curly => '}'
  }

  /** A character of a string literal: itself, or any character after a backslash. */
  datatype Unit = Raw(c: char) | Escape(c: char)

  /** A piece of code: a character, a string literal, a group, or a closing bracket that closes
      nothing. */
  datatype Term =
    | Char(c: char)
    | Quoted(q: char, body: seq<Unit>)
    | Group(kind: Kind, inside: seq<Term>)
    | Stray(kind: Kind)

  function WriteBody(body: seq<Unit>): string {
    if body == [] then ""
    else
      var u := body[|body| - 1];
      WriteBody(body[..|body| - 1]) + match u case Raw(c) => [c] case Escape(c) => ['\\', c]
  }

  function Write(t: Term): string
    decreases t, 1
  {
    match t
    case Char(c) => [c]
    case Quoted(q, body) => [q] + WriteBody(body) + [q]
    case Group(kind, inside) => [Open(kind)] + WriteAll(inside) + [Close(kind)]
    case Stray(kind) => [Close(kind)]
  }

  function WriteAll(ts: seq<Term>): string
    decreases ts, 0
  {
    if ts == [] then "" else WriteAll(ts[..|ts| - 1]) + Write(ts[|ts| - 1])
  }

  predicate QuoteChar(c: char) {
    c == '\'' || c == '"' || c == '`'
  }

  predicate BracketChar(c: char) {
    c == '(' || c == ')' || c == '[' || c == ']' || c == '{' || c == '}'
  }

  /** Literals are closed by their own quote only, and groups hold no stray closing brackets. */
  ghost predicate WellFormed(t: Term)
    decreases t
  {
    match t
    case Char(c) => !QuoteChar(c) && !BracketChar(c)
    case Quoted(q, body) => QuoteChar(q) && forall u | u in body :: u.Raw? ==> u.c != q && u.c != '\\'
    case Group(_, inside) => forall x | x in inside :: !x.Stray? && WellFormed(x)
    case Stray(_) => true
  }

  // ------------------------------------------------------------------------- one character

  lemma OneChar(s: string, c: char)
    ensures QuotesAfter(s + [c]) == Next(QuotesAfter(s), c)
    ensures var code := QuotesAfter(s).quote.None? && !IsQuote(c);
      && Depth(s + [c]) == Depth(s) + (if !code then 0 else if c == '(' then 1 else if c == ')' then -1 else 0)
      && forall k ::
           Clamped(s + [c], Open(k), Close(k)) == NextClamped(Clamped(s, Open(k), Close(k)), code, c, Open(k), Close(k))
  {
    assert (s + [c])[..|s|] == s;
  }

  /** Outside string literals. */
  ghost predicate Outside(s: string) {
    QuotesAfter(s) == OUTSIDE
  }

  ghost predicate SameDepths(s: string, t: string) {
    Depth(s) == Depth(t) && forall k :: Clamped(s, Open(k), Close(k)) == Clamped(t, Open(k), Close(k))
  }

  ghost predicate NoShallower(s: string, t: string) {
    Depth(t) >= Depth(s) && forall k :: Clamped(t, Open(k), Close(k)) >= Clamped(s, Open(k), Close(k))
  }

  /** After `s`, the text `w` leads outside again, to the same depths, and never below them. */
  ghost predicate Neutral(s: string, w: string) {
    && Outside(s + w) && SameDepths(s + w, s)
    && forall j | 0 <= j <= |w| :: NoShallower(s, s + w[..j])
  }

  lemma NeutralJoin(s: string, a: string, b: string)
    requires Neutral(s, a) && Neutral(s + a, b)
    ensures Neutral(s, a + b)
  {
    hide Outside, Depth, Clamped;
    assert s + a + b == s + (a + b);
    forall j | 0 <= j <= |a + b| ensures NoShallower(s, s + (a + b)[..j]) {
      if j <= |a| {
        assert (a + b)[..j] == a[..j];
      } else {
        assert s + (a + b)[..j] == s + a + b[..j - |a|];
        assert NoShallower(s + a, s + a + b[..j - |a|]);
      }
    }
  }

  // ------------------------------------------------------------------------ string literals

  /** Inside a literal with quote `q`, with nothing pending, at the depths of `s`. */
  ghost predicate Inside(s: string, w: string, q: char) {
    QuotesAfter(s + w) == Quotes(Some(q), false) && SameDepths(s + w, s)
  }

  lemma UnitStep(s: string, w: string, q: char, u: Unit)
    requires Inside(s, w, q) && QuoteChar(q) && (u.Raw? ==> u.c != q && u.c != '\\')
    ensures var x := match u case Raw(c) => [c] case Escape(c) => ['\\', c];
      && Inside(s, w + x, q)
      && forall j | 0 <= j <= |x| :: SameDepths(s + (w + x[..j]), s) && QuotesAfter(s + (w + x[..j])).quote == Some(q)
  {
    var x := match u case Raw(c) => [c] case Escape(c) => ['\\', c];
    hide Depth, Clamped, QuotesAfter;
    OneChar(s + w, x[0]);
    assert s + (w + x[..0]) == s + w && s + (w + x[..1]) == s + w + [x[0]];
    if u.Escape? {
      OneChar(s + w + [x[0]], x[1]);
      assert s + (w + x[..2]) == s + w + [x[0]] + [x[1]];
    }
    assert x[..|x|] == x;
  }

  /** Every position after the opening quote is inside the literal. */
  ghost predicate StaysInside(s: string, w: string, q: char) {
    forall j | 1 <= j <= |w| :: SameDepths(s + w[..j], s) && QuotesAfter(s + w[..j]).quote == Some(q)
  }

  lemma {:induction false} BodyInside(s: string, q: char, body: seq<Unit>)
    requires Outside(s) && QuoteChar(q) && forall u | u in body :: u.Raw? ==> u.c != q && u.c != '\\'
    ensures Inside(s, [q] + WriteBody(body), q) && StaysInside(s, [q] + WriteBody(body), q)
  {
    if body == [] {
      OneChar(s, q);
      hide Depth, Clamped, QuotesAfter;
      assert [q][..1] == [q] && [q] + WriteBody(body) == [q];
    } else {
      var n := |body| - 1;
      var u, w := body[n], [q] + WriteBody(body[..n]);
      var x := match u case Raw(c) => [c] case Escape(c) => ['\\', c];
      assert u in body;
      assert [q] + WriteBody(body) == w + x;
      hide Inside, SameDepths, QuotesAfter, WriteBody, Outside;
      BodyInside(s, q, body[..n]);
      UnitStep(s, w, q, u);
      forall j | 1 <= j <= |w + x|
        ensures SameDepths(s + (w + x)[..j], s) && QuotesAfter(s + (w + x)[..j]).quote == Some(q)
      {
        if j <= |w| {
          assert (w + x)[..j] == w[..j];
        } else {
          assert (w + x)[..j] == w + x[..j - |w|];
        }
      }
    }
  }

  lemma LiteralEnds(s: string, w: string, q: char)
    requires Inside(s, w, q) && QuoteChar(q)
    ensures Outside(s + (w + [q])) && SameDepths(s + (w + [q]), s)
  {
    OneChar(s + w, q);
    hide Depth, Clamped, QuotesAfter;
    assert s + w + [q] == s + (w + [q]);
  }

  /** A literal leads outside again, to the same depths, and its closing quote is the first
      position where the scanner is outside. */
  lemma LiteralNeutral(s: string, q: char, body: seq<Unit>)
    requires Outside(s) && QuoteChar(q) && forall u | u in body :: u.Raw? ==> u.c != q && u.c != '\\'
    ensures Neutral(s, Write(Quoted(q, body)))
    ensures StaysInside(s, [q] + WriteBody(body), q)
  {
    var w := [q] + WriteBody(body);
    BodyInside(s, q, body);
    LiteralEnds(s, w, q);
    assert Write(Quoted(q, body)) == w + [q];
    hide Depth, Clamped, QuotesAfter, Write, WriteBody;
    forall j | 0 <= j <= |w + [q]| ensures NoShallower(s, s + (w + [q])[..j]) {
      if j == 0 {
        assert s + (w + [q])[..0] == s;
      } else if j <= |w| {
        assert (w + [q])[..j] == w[..j] && SameDepths(s + w[..j], s);
      } else {
        assert (w + [q])[..j] == w + [q];
      }
    }
  }

  // --------------------------------------------------------------------------------- terms

  lemma CharNeutral(s: string, c: char)
    requires Outside(s) && !QuoteChar(c) && !BracketChar(c)
    ensures Neutral(s, [c])
  {
    OneChar(s, c);
    hide Depth, Clamped, QuotesAfter;
    assert [c][..0] == "" && [c][..1] == [c] && s + "" == s;
  }

  lemma EmptyNeutral(s: string)
    requires Outside(s)
    ensures Neutral(s, "")
  {
    assert s + "" == s && ""[..0] == "";
  }

  lemma {:induction false} TermNeutral(s: string, t: Term)
    requires Outside(s) && WellFormed(t) && !t.Stray?
    ensures Neutral(s, Write(t))
    decreases t, 1
  {
    match t
    case Char(c) => CharNeutral(s, c);
    case Quoted(q, body) => LiteralNeutral(s, q, body);
    case Group(kind, inside) =>
      OneChar(s, Open(kind));
      TermsNeutral(s + [Open(kind)], inside);
      GroupNeutral(s, kind, WriteAll(inside));
    case Stray(_) =>
  }

  lemma {:induction false} TermsNeutral(s: string, ts: seq<Term>)
    requires Outside(s) && forall t | t in ts :: WellFormed(t) && !t.Stray?
    ensures Neutral(s, WriteAll(ts))
    decreases ts, 0
  {
    if ts == [] {
      EmptyNeutral(s);
    } else {
      var n := |ts| - 1;
      assert ts[n] in ts;
      TermsNeutral(s, ts[..n]);
      assert Outside(s + WriteAll(ts[..n]));
      TermNeutral(s + WriteAll(ts[..n]), ts[n]);
      NeutralJoin(s, WriteAll(ts[..n]), Write(ts[n]));
    }
  }

  lemma GroupNeutral(s: string, kind: Kind, w: string)
    requires Outside(s) && Neutral(s + [Open(kind)], w)
    ensures Neutral(s, [Open(kind)] + w + [Close(kind)])
    ensures forall j | 1 <= j <= |w| + 1 :: Clamped(s + ([Open(kind)] + w)[..j], Open(kind), Close(kind)) > 0
  {
    var x, all := [Open(kind)] + w, [Open(kind)] + w + [Close(kind)];
    OneChar(s, Open(kind));
    OneChar(s + [Open(kind)] + w, Close(kind));
    hide Depth, Clamped, QuotesAfter;
    assert s + [Open(kind)] + w + [Close(kind)] == s + all && s + [Open(kind)] + w == s + x;
    forall j | 0 <= j <= |all| ensures NoShallower(s, s + all[..j])
      ensures 1 <= j <= |w| + 1 ==> Clamped(s + x[..j], Open(kind), Close(kind)) > 0
    {
      if j == 0 {
        assert s + all[..0] == s;
      } else if j <= |w| + 1 {
        assert all[..j] == x[..j] == [Open(kind)] + w[..j - 1];
        assert s + x[..j] == s + [Open(kind)] + w[..j - 1];
        assert NoShallower(s + [Open(kind)], s + [Open(kind)] + w[..j - 1]);
      } else {
        assert all[..j] == all;
      }
    }
  }

  // --------------------------------------------------------------- the matching parenthesis

  ghost predicate Balanced(ts: seq<Term>) {
    forall t | t in ts :: WellFormed(t) && !t.Stray?
  }

  lemma NotBefore(w: string, rest: string, k: nat)
    requires Neutral("", w) && k < |w|
    ensures !Closes(w + rest, k)
  {
    assert (w + rest)[..k + 1] == w[..k + 1] && "" + w[..k + 1] == w[..k + 1];
    assert NoShallower("", "" + w[..k + 1]);
    assert Depth("") == 0;
  }

  /** The scanner finds the parenthesis that closes a balanced group, whatever it holds and
      whatever follows. */
  lemma MatchingParenFound(before: string, inside: seq<Term>, rest: string, r: int)
    requires Balanced(inside)
    requires IsMatching(before + "(" + WriteAll(inside) + ")" + rest, |before|, r)
    ensures r == |before| + 1 + |WriteAll(inside)|
  {
    TermsNeutral("", inside);
    ClosedAfter(WriteAll(inside), rest);
    FirstClosing(before, WriteAll(inside), rest, r);
  }

  lemma ClosedAfter(w: string, rest: string)
    requires Neutral("", w)
    ensures Closes(w + (")" + rest), |w|) && forall k: nat | k < |w| :: !Closes(w + (")" + rest), k)
  {
    OneChar(w, ')');
    assert "" + w == w && Depth("") == 0;
    assert (w + (")" + rest))[..|w| + 1] == w + [')'];
    assert Closes(w + (")" + rest), |w|);
    hide *;
    forall k: nat | k < |w| ensures !Closes(w + (")" + rest), k) { NotBefore(w, ")" + rest, k); }
  }

  lemma FirstClosing(before: string, w: string, rest: string, r: int)
    requires Closes(w + (")" + rest), |w|) && forall k: nat | k < |w| :: !Closes(w + (")" + rest), k)
    requires IsMatching(before + "(" + w + ")" + rest, |before|, r)
    ensures r == |before| + 1 + |w|
  {
    hide Closes;
    assert After(before + "(" + w + ")" + rest, |before|) == w + (")" + rest);
  }

  /** And none when nothing closes it. */
  lemma NoMatchingParen(before: string, inside: seq<Term>, r: int)
    requires Balanced(inside) && IsMatching(before + "(" + WriteAll(inside), |before|, r)
    ensures r == -1
  {
    var w := WriteAll(inside);
    TermsNeutral("", inside);
    assert After(before + "(" + w, |before|) == w + "" == w;
    forall k: nat ensures !Closes(w, k) {
      if k < |w| { NotBefore(w, "", k); }
    }
  }

  // -------------------------------------------------------------------------- the arguments

  /** Outside literals and brackets. */
  ghost predicate Clean(s: string) {
    Outside(s) && forall k :: Clamped(s, Open(k), Close(k)) == 0
  }

  /** After `s`, the splitter cuts at position `j` of `w`. */
  predicate CutIn(s: string, w: string, j: nat) {
    j < |w| && Cut(s + w, |s| + j)
  }

  ghost predicate NoCuts(s: string, w: string) {
    forall j: nat | j < |w| :: !CutIn(s, w, j)
  }

  /** What an argument is made of: anything well formed but a comma of its own. */
  ghost predicate ArgumentTerm(t: Term) {
    WellFormed(t) && t != Char(',')
  }

  ghost predicate IsArgument(ts: seq<Term>) {
    forall t | t in ts :: ArgumentTerm(t)
  }

  lemma CutAt(s: string, w: string, j: nat)
    requires j < |w|
    ensures CutIn(s, w, j) <==>
      && w[j] == ',' && QuotesAfter(s + w[..j]).quote.None?
      && Clamped(s + w[..j], '(', ')') == 0 && Clamped(s + w[..j], '[', ']') == 0 && Clamped(s + w[..j], '{', '}') == 0
  {
    assert (s + w)[..|s| + j] == s + w[..j];
  }

  lemma TopTerm(s: string, t: Term)
    requires Clean(s) && ArgumentTerm(t)
    ensures Clean(s + Write(t)) && NoCuts(s, Write(t))
  {
    var w := Write(t);
    if t.Stray? {
      OneChar(s, Close(t.kind));
      CutAt(s, w, 0);
    } else {
      TermNeutral(s, t);
      match t
      case Char(c) => CutAt(s, w, 0);
      case Quoted(q, body) => LiteralNoCuts(s, q, body);
      case Group(kind, inside) => GroupNoCuts(s, kind, inside);
    }
  }

  lemma LiteralNoCuts(s: string, q: char, body: seq<Unit>)
    requires Clean(s) && WellFormed(Quoted(q, body))
    ensures NoCuts(s, Write(Quoted(q, body)))
  {
    LiteralNeutral(s, q, body);
    var w := [q] + WriteBody(body);
    hide Clamped, QuotesAfter, Depth, WriteBody, Cut, CutIn;
    forall j: nat | j < |w + [q]| ensures !CutIn(s, w + [q], j) {
      CutAt(s, w + [q], j);
      if 1 <= j { assert (w + [q])[..j] == w[..j]; }
    }
  }

  lemma GroupNoCuts(s: string, kind: Kind, inside: seq<Term>)
    requires Clean(s) && WellFormed(Group(kind, inside))
    ensures NoCuts(s, Write(Group(kind, inside)))
  {
    var w := WriteAll(inside);
    OneChar(s, Open(kind));
    TermsNeutral(s + [Open(kind)], inside);
    GroupNeutral(s, kind, w);
    hide Clamped, QuotesAfter, Depth, WriteAll, Cut, CutIn;
    var x, all := [Open(kind)] + w, [Open(kind)] + w + [Close(kind)];
    forall j: nat | j < |all| ensures !CutIn(s, all, j) {
      CutAt(s, all, j);
      if 1 <= j { assert all[..j] == x[..j]; }
    }
  }

  lemma NoCutsJoin(s: string, a: string, b: string)
    requires NoCuts(s, a) && NoCuts(s + a, b)
    ensures NoCuts(s, a + b)
  {
    hide Clamped, QuotesAfter, Cut, CutIn;
    forall j: nat | j < |a + b| ensures !CutIn(s, a + b, j) {
      CutAt(s, a + b, j);
      if j < |a| {
        CutAt(s, a, j);
        assert (a + b)[..j] == a[..j];
      } else {
        CutAt(s + a, b, j - |a|);
        assert s + (a + b)[..j] == s + a + b[..j - |a|];
        assert !CutIn(s + a, b, j - |a|);
      }
    }
  }

  lemma {:induction false} TopTerms(s: string, ts: seq<Term>)
    requires Clean(s) && IsArgument(ts)
    ensures Clean(s + WriteAll(ts)) && NoCuts(s, WriteAll(ts))
  {
    if ts == [] {
      assert s + "" == s && WriteAll(ts) == "";
    } else {
      var n := |ts| - 1;
      var front, last := WriteAll(ts[..n]), Write(ts[n]);
      assert ts[n] in ts && WriteAll(ts) == front + last;
      hide Write, WriteAll, Clean, NoCuts, ArgumentTerm;
      TopTerms(s, ts[..n]);
      TopTerm(s + front, ts[n]);
      NoCutsJoin(s, front, last);
      assert s + front + last == s + (front + last);
    }
  }

  ghost function Written(args: seq<seq<Term>>): (ws: seq<string>)
    ensures |ws| == |args|
  {
    seq(|args|, i requires 0 <= i < |args| => WriteAll(args[i]))
  }

  lemma {:induction false} CutsOfPrefix(a: string, b: string, n: nat)
    requires n <= |a|
    ensures CutsBelow(a + b, n) == CutsBelow(a, n)
  {
    if n > 0 {
      CutsOfPrefix(a, b, n - 1);
      assert (a + b)[..n - 1] == a[..n - 1] && (a + b)[n - 1] == a[n - 1];
      assert (a + b)[..n - 1 + 1] == a[..n - 1 + 1];
    }
  }

  lemma {:induction false} CutsEnd(s: string, w: string, j: nat)
    requires NoCuts(s, w) && j <= |w|
    ensures CutsBelow(s + w, |s| + j) == CutsBelow(s, |s|)
  {
    if j == 0 {
      CutsOfPrefix(s, w, |s|);
    } else {
      CutsEnd(s, w, j - 1);
      assert !CutIn(s, w, j - 1);
    }
  }

  /** The splitter ends outside literals and brackets, and its pieces, untrimmed, are `ws`. */
  ghost predicate CutInto(s: string, ws: seq<string>) {
    Clean(s) && Ordered(s, CutsBelow(s, |s|)) && Pieces(s, CutsBelow(s, |s|)) == ws
  }

  /** Arguments written one after another with commas in between. */
  lemma {:induction false} CutsAreJoins(args: seq<seq<Term>>)
    requires args != [] && forall ts | ts in args :: IsArgument(ts)
    ensures CutInto(Joined(Written(args)), Written(args))
  {
    var n := |args| - 1;
    assert args[n] in args;
    hide *;
    var ws, w := Written(args[..n]), WriteAll(args[n]);
    WrittenSnoc(args);
    JoinedSnoc(ws, w);
    if n == 0 {
      OneArgument(args[0]);
    } else {
      CutsAreJoins(args[..n]);
      OneMoreArgument(Joined(ws), args[n], ws);
    }
  }

  lemma WrittenSnoc(args: seq<seq<Term>>)
    requires args != []
    ensures var n := |args| - 1; Written(args) == Written(args[..n]) + [WriteAll(args[n])]
  {
    hide WriteAll;
  }

  lemma JoinedSnoc(ws: seq<string>, w: string)
    ensures Joined(ws + [w]) == if ws == [] then w else Joined(ws) + "," + w
  {
    assert (ws + [w])[..|ws|] == ws;
  }

  lemma OneArgument(ts: seq<Term>)
    requires IsArgument(ts)
    ensures CutInto(WriteAll(ts), [WriteAll(ts)])
  {
    FromStart(ts);
    hide WriteAll, Clean, CutsBelow, Pieces;
    OnePiece(WriteAll(ts));
  }

  lemma FromStart(ts: seq<Term>)
    requires IsArgument(ts)
    ensures var s := WriteAll(ts); Clean(s) && CutsBelow(s, |s|) == []
  {
    var s := WriteAll(ts);
    assert Clean("") && CutsBelow("", 0) == [];
    hide *;
    assert "" + s == s;
    TopTerms("", ts);
    CutsEnd("", s, |s|);
  }

  lemma OnePiece(s: string)
    ensures Ordered(s, []) && Pieces(s, []) == [s]
  {
    assert Piece(s, [], 0) == s;
  }

  lemma OneMoreArgument(s: string, ts: seq<Term>, ws: seq<string>)
    requires CutInto(s, ws) && IsArgument(ts)
    ensures CutInto(s + "," + WriteAll(ts), ws + [WriteAll(ts)])
  {
    var w, front := WriteAll(ts), s + ",";
    CommaCuts(s);
    hide WriteAll, CutsBelow, Clean, NoCuts;
    TopTerms(front, ts);
    CutsEnd(front, w, |w|);
    CutsAreOrdered(front + w, |front + w|);
    LastPiece(s, w, CutsBelow(s, |s|));
  }

  lemma LastPiece(s: string, w: string, cs: seq<nat>)
    requires Ordered(s, cs) && Ordered(s + "," + w, cs + [|s|])
    ensures Pieces(s + "," + w, cs + [|s|]) == Pieces(s, cs) + [w]
  {
    hide *;
    var all, more := s + "," + w, cs + [|s|];
    PiecesBeforeLast(all, more);
    assert more[..|cs|] == cs && more[|cs|] == |s|;
    assert all == s + ("," + w);
    assert all[..|s|] == s;
    assert all[|s| + 1..] == w;
  }

  lemma CommaCuts(s: string)
    requires Clean(s)
    ensures CutsBelow(s + ",", |s + ","|) == CutsBelow(s, |s|) + [|s|] && Clean(s + ",")
  {
    CharNeutral(s, ',');
    assert SameDepths(s + ",", s);
    CutsOfPrefix(s, ",", |s|);
    CutAt(s, ",", 0);
    assert s + ","[..0] == s;
    assert Clamped(s, Open(Round), Close(Round)) == 0 && Clamped(s, Open(Square), Close(Square)) == 0
      && Clamped(s, Open(Curly), Close(Curly)) == 0;
  }

  /** Every argument trimmed, and the last one left out when it is blank. */
  ghost predicate Trimmed(ws: seq<string>, out: seq<string>)
    requires ws != []
  {
    var n := |ws| - 1;
    && |out| == (if Trim(ws[n]) == "" then n else n + 1)
    && forall i | 0 <= i < |out| :: out[i] == Trim(ws[i])
  }

  lemma {:induction false} TrimAllAt(ws: seq<string>, i: nat)
    requires i < |ws|
    ensures TrimAll(ws)[i] == Trim(ws[i])
  {
    hide Trim;
    if i < |ws| - 1 { TrimAllAt(ws[..|ws| - 1], i); }
  }

  lemma ArgumentsTrimmed(ws: seq<string>)
    requires ws != []
    ensures Trimmed(ws, Arguments(ws))
  {
    hide TrimAll, Trim;
    forall i: nat | i < |ws| ensures TrimAll(ws)[i] == Trim(ws[i]) { TrimAllAt(ws, i); }
  }

  /** The splitter gives back the arguments, trimmed, without a blank last one: commas inside
      literals and groups do not cut, and all others do. */
  lemma ArgumentsFound(args: seq<seq<Term>>, out: seq<string>)
    requires args != [] && forall ts | ts in args :: IsArgument(ts)
    requires var s := Joined(Written(args));
      Ordered(s, CutsBelow(s, |s|)) && out == Arguments(Pieces(s, CutsBelow(s, |s|)))
    ensures Trimmed(Written(args), out)
  {
    CutsAreJoins(args);
    ArgumentsTrimmed(Written(args));
  }
}
