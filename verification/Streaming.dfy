/** Unmasking a text that arrives in chunks (`pii/streaming.py`) agrees with unmasking it at
    once, exactly as long as no replaced placeholder is longer than 33 characters. */
module Streaming {
  import opened Text
  import opened Placeholders

  const CARRY_BUFFER_SIZE: nat := 32

  /** Placeholders in `text` for which the table has no row. */
  function Misses(rows: map<string, string>, text: string): set<string> {
    set p | p in Matches(Narrow, text) && p !in rows
  }

  /** The dict-shaped adapter behind `PiiMapping.reverse`: looks placeholders up in `rows` and
      records every miss. A plain dict is the same table with the record ignored. */
  class LookupReverse {
    const rows: map<string, string>
    var hallucinated: set<string>

    constructor (rows: map<string, string>)
      ensures this.rows == rows && hallucinated == {}
    {
      this.rows := rows;
      hallucinated := {};
    }

    method Get(key: string, default: string) returns (val: string)
      modifies this
      ensures val == if key in rows then rows[key] else default
      ensures hallucinated == old(hallucinated) + (if key in rows then {} else {key})
    {
      if key !in rows {
        hallucinated := hallucinated + {key};
        return default;
      }
      return rows[key];
    }
  }

  /** `unmask_text` over such a table: one left-to-right pass with one lookup per match. */
  method UnmaskText(text: string, reverse: LookupReverse) returns (out: string)
    modifies reverse
    ensures out == Substitute(Narrow, reverse.rows, text)
    ensures reverse.hallucinated == old(reverse.hallucinated) + Misses(reverse.rows, text)
  {
    hide IsPlaceholder, MatchLength, Substitute, Matches;
    EmptyScan(Narrow, reverse.rows);
    var rest := text;
    out := "";
    while rest != ""
      invariant out + Substitute(Narrow, reverse.rows, rest) == Substitute(Narrow, reverse.rows, text)
      invariant reverse.hallucinated + Misses(reverse.rows, rest)
             == old(reverse.hallucinated) + Misses(reverse.rows, text)
      decreases |rest|
    {
      var n := MatchLength(Narrow, rest);
      SubstituteStep(Narrow, reverse.rows, rest);
      MatchesStep(Narrow, rest);
      if n > 0 {
        var replacement := reverse.Get(rest[..n], rest[..n]);
        out, rest := out + replacement, rest[n..];
      } else {
        out, rest := out + [rest[0]], rest[1..];
      }
    }
  }

  /** The last position of a character at or after `from`, or -1. */
  function RFind(s: string, c: char, from: nat): (i: int)
    requires from <= |s|
    ensures i == -1 || from <= i < |s|
    ensures i >= 0 ==> s[i] == c
    ensures forall j | (if i == -1 then from else i + 1) <= j < |s| :: s[j] != c
    decreases |s|
  {
    if |s| == from then -1
    else if s[|s| - 1] == c then |s| - 1
    else RFind(s[..|s| - 1], c, from)
  }

  /** What `feed` emits of `carry + chunk`, and what it holds back. */
  function Cut(combined: string): (r: (string, string))
    ensures r.0 + r.1 == combined
    ensures |r.1| <= CARRY_BUFFER_SIZE
    ensures r.1 != "" ==> r.1[0] == '<' && '<' !in r.1[1..] && '>' !in r.1
  {
    var searchStart := if |combined| > CARRY_BUFFER_SIZE then |combined| - CARRY_BUFFER_SIZE else 0;
    var lastLt := RFind(combined, '<', searchStart);
    if lastLt == -1 then (combined, "")
    else if '>' in combined[lastLt..] then (combined, "")
    else (combined[..lastLt], combined[lastLt..])
  }

  function FeedResult(m: map<string, string>, carry: string, chunk: string): (string, string) {
    if chunk == "" then ("", carry)
    else (Substitute(Narrow, m, Cut(carry + chunk).0), Cut(carry + chunk).1)
  }

  /** All that a run of feeds emits, and the carry it ends with. */
  function FeedAll(m: map<string, string>, carry: string, chunks: seq<string>): (string, string)
    decreases |chunks|
  {
    if chunks == [] then ("", carry)
    else
      var first := FeedResult(m, carry, chunks[0]);
      var rest := FeedAll(m, first.1, chunks[1..]);
      (first.0 + rest.0, rest.1)
  }

  /** A whole stream on a fresh unmasker: every chunk fed, then flushed. */
  function Stream(m: map<string, string>, chunks: seq<string>): string {
    var r := FeedAll(m, "", chunks);
    r.0 + Substitute(Narrow, m, r.1)
  }

  class StreamUnmasker {
    const mapping: LookupReverse
    var carry: string

    constructor (mapping: LookupReverse)
      ensures this.mapping == mapping && carry == ""
    {
      this.mapping := mapping;
      carry := "";
    }

    method Feed(chunk: string) returns (out: string)
      modifies this, mapping
      ensures (out, carry) == FeedResult(mapping.rows, old(carry), chunk)
      ensures |old(carry)| <= CARRY_BUFFER_SIZE ==> |carry| <= CARRY_BUFFER_SIZE
      ensures chunk == "" ==> mapping.hallucinated == old(mapping.hallucinated)
      ensures chunk != "" ==>
        mapping.hallucinated == old(mapping.hallucinated) + Misses(mapping.rows, Cut(old(carry) + chunk).0)
    {
      if chunk == "" {
        return "";
      }
      var combined := carry + chunk;
      var searchStart := if |combined| > CARRY_BUFFER_SIZE then |combined| - CARRY_BUFFER_SIZE else 0;
      var lastLt := RFind(combined, '<', searchStart);
      var emitPart;
      if lastLt == -1 {
        emitPart := combined;
        carry := "";
      } else {
        var tail := combined[lastLt..];
        if '>' in tail {
          emitPart := combined;
          carry := "";
        } else {
          emitPart := combined[..lastLt];
          carry := tail;
        }
      }
      out := UnmaskText(emitPart, mapping);
    }

    method Flush() returns (out: string)
      modifies this, mapping
      ensures out == Substitute(Narrow, mapping.rows, old(carry)) && carry == ""
      ensures mapping.hallucinated == old(mapping.hallucinated) + Misses(mapping.rows, old(carry))
    {
      var emit := carry;
      carry := "";
      if emit == "" {
        return "";
      }
      out := UnmaskText(emit, mapping);
    }

    method Reset()
      modifies this
      ensures carry == ""
    {
      carry := "";
    }
  }

  // ------------------------------------------------------------------------ agreement

  /** When nothing is held back, an open `<` at the end can only belong to a longer match. */
  lemma NothingHeld(combined: string, i: nat)
    requires i < |combined| && combined[i] == '<'
    requires forall j | i < j < |combined| :: combined[j] != '<' && combined[j] != '>'
    requires Cut(combined).1 == ""
    ensures |combined| - i > CARRY_BUFFER_SIZE
  {
    var searchStart := if |combined| > CARRY_BUFFER_SIZE then |combined| - CARRY_BUFFER_SIZE else 0;
    var lastLt := RFind(combined, '<', searchStart);
    assert lastLt == -1 || lastLt == i;
  }

  /** No placeholder of at most 33 characters lies across a cut, whatever follows. */
  lemma CutSafe(combined: string, x: string, p: string)
    requires IsPlaceholder(Narrow, p) && |p| <= CARRY_BUFFER_SIZE + 1
    ensures !Straddles(p, Cut(combined).0, Cut(combined).1 + x)
  {
    hide IsPlaceholder, Cut;
    var (e, h) := Cut(combined);
    if h != "" {
      hide Straddles;
      NoStraddle(Narrow, e, h + x);
    } else if i :| At(e + (h + x), i, p) && i < |e| < i + |p| {
      AtChars(e + (h + x), i, p);
      assert forall j | i <= j < |e| :: e[j] == p[j - i];
      PlaceholderShape(Narrow, p);
      assert combined == e;
      NothingHeld(combined, i);
    }
  }

  lemma FeedOnce(m: map<string, string>, carry: string, chunk: string, x: string)
    requires forall p | IsPlaceholder(Narrow, p) && Entry(m, p) != p :: |p| <= CARRY_BUFFER_SIZE + 1
    requires chunk != ""
    ensures var (e, h) := Cut(carry + chunk);
      && FeedResult(m, carry, chunk) == (Substitute(Narrow, m, e), h)
      && Substitute(Narrow, m, e + (h + x)) == FeedResult(m, carry, chunk).0 + Substitute(Narrow, m, h + x)
  {
    var (e, h) := Cut(carry + chunk);
    forall p | IsPlaceholder(Narrow, p) && Entry(m, p) != p ensures !Straddles(p, e, h + x) {
      CutSafe(carry + chunk, x, p);
    }
    SubstituteAppend(Narrow, m, e, h + x);
  }

  /** After any feeds, what was emitted is the unmasked form of all input but the carry, and
      unmasking the carry completes it. */
  lemma {:induction false} FeedAllSplits(m: map<string, string>, carry: string, chunks: seq<string>)
    returns (done: string)
    requires forall p | IsPlaceholder(Narrow, p) && Entry(m, p) != p :: |p| <= CARRY_BUFFER_SIZE + 1
    ensures var r := FeedAll(m, carry, chunks);
      && done + r.1 == carry + Concat(chunks)
      && r.0 == Substitute(Narrow, m, done)
      && r.0 + Substitute(Narrow, m, r.1) == Substitute(Narrow, m, carry + Concat(chunks))
    decreases |chunks|
  {
    hide Substitute, Cut, IsPlaceholder, Straddles, Entry, FeedResult;
    if chunks == [] {
      done := "";
      EmptySubstitute(m);
      assert carry + Concat(chunks) == carry;
    } else if chunks[0] == "" {
      done := FeedAllSplits(m, carry, chunks[1..]);
      assert FeedResult(m, carry, "") == ("", carry) by { FeedNothing(m, carry); }
    } else {
      var (e, h) := Cut(carry + chunks[0]);
      var x := Concat(chunks[1..]);
      var done' := FeedAllSplits(m, h, chunks[1..]);
      done := e + done';
      var last := FeedAll(m, h, chunks[1..]).1;
      FeedOnce(m, carry, chunks[0], x);
      forall p | IsPlaceholder(Narrow, p) && Entry(m, p) != p ensures !Straddles(p, e, done') {
        CutSafe(carry + chunks[0], x, p);
        if Straddles(p, e, done') { StraddlesLonger(p, e, done', last); }
      }
      SubstituteAppend(Narrow, m, e, done');
      Regroup(carry, chunks[0], x, e, h);
      Associative(e, done', last);
      Associative(Substitute(Narrow, m, e), Substitute(Narrow, m, done'), Substitute(Narrow, m, last));
    }
  }

  lemma FeedNothing(m: map<string, string>, carry: string)
    ensures FeedResult(m, carry, "") == ("", carry)
  {}

  lemma Regroup(carry: string, chunk: string, x: string, e: string, h: string)
    requires carry + chunk == e + h
    ensures carry + (chunk + x) == e + (h + x)
  {
    assert carry + (chunk + x) == (carry + chunk) + x;
  }

  lemma EmptySubstitute(m: map<string, string>)
    ensures Substitute(Narrow, m, "") == ""
  {}

  /** Joining all `feed` results and the final `flush` equals unmasking the whole text, for
      every text and every way of cutting it, empty chunks included. */
  lemma StreamIsUnmask(m: map<string, string>, chunks: seq<string>)
    requires forall p | IsPlaceholder(Narrow, p) && Entry(m, p) != p :: |p| <= CARRY_BUFFER_SIZE + 1
    ensures Stream(m, chunks) == Substitute(Narrow, m, Concat(chunks))
  {
    var done := FeedAllSplits(m, "", chunks);
    assert "" + Concat(chunks) == Concat(chunks);
  }

  lemma TwoFeeds(m: map<string, string>, a: string, b: string)
    requires a != "" && b != "" && Cut(a) == (a, "") && Cut(b) == (b, "")
    ensures Stream(m, [a, b]) == Substitute(Narrow, m, a) + Substitute(Narrow, m, b)
  {
    hide Substitute, Cut;
    assert [a, b][1..] == [b] && [b][1..] == [];
    assert "" + a == a && "" + b == b;
    assert FeedResult(m, "", a) == (Substitute(Narrow, m, a), "");
    assert FeedAll(m, "", [b]) == (Substitute(Narrow, m, b) + "", "");
    EmptySubstitute(m);
  }

  /** The bound is sharp: cut after 33 characters, a longer placeholder comes out raw. */
  lemma LongPlaceholderLeaks(m: map<string, string>, p: string)
    requires IsPlaceholder(Narrow, p) && |p| > CARRY_BUFFER_SIZE + 1
    ensures Stream(m, [p[..33], p[33..]]) == p
    ensures Substitute(Narrow, m, p) == Entry(m, p)
  {
    hide IsPlaceholder, Stream, Substitute;
    var a, b := p[..33], p[33..];
    PlaceholderShape(Narrow, p);
    assert '>' !in a && '<' !in a[1..] && '<' !in b && a + b == p;
    assert Cut(a) == (a, "") && Cut(b) == (b, "");
    TwoFeeds(m, a, b);
    NoCloseNoMatch(Narrow, a);
    MatchFreeScan(Narrow, a, m);
    PlainRun(Narrow, b, "", m);
    EmptySubstitute(m);
    assert b + "" == b;
    ScanOne(Narrow, p, m);
  }

  /** The exact condition on the table for streaming to agree with unmasking at once. */
  lemma StreamAgreesIff(m: map<string, string>)
    ensures (forall chunks :: Stream(m, chunks) == Substitute(Narrow, m, Concat(chunks)))
       <==> (forall p | IsPlaceholder(Narrow, p) && Entry(m, p) != p :: |p| <= CARRY_BUFFER_SIZE + 1)
  {
    hide IsPlaceholder, Stream, Substitute, Entry;
    if forall p | IsPlaceholder(Narrow, p) && Entry(m, p) != p :: |p| <= CARRY_BUFFER_SIZE + 1 {
      forall chunks ensures Stream(m, chunks) == Substitute(Narrow, m, Concat(chunks)) {
        StreamIsUnmask(m, chunks);
      }
    } else {
      var p :| IsPlaceholder(Narrow, p) && Entry(m, p) != p && |p| > CARRY_BUFFER_SIZE + 1;
      LongPlaceholderLeaks(m, p);
      var chunks := [p[..33], p[33..]];
      assert chunks[1..] == [p[33..]] && Concat([p[33..]]) == p[33..];
      assert Concat(chunks) == p;
      assert Stream(m, chunks) != Substitute(Narrow, m, Concat(chunks));
    }
  }
}
