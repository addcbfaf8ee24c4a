/** The event loop of `/restore_stream` (`_gen` inside `restore_stream` of `api.py`). */
module RestoreStreams {
  import opened Text
  import opened Placeholders
  import opened Streaming
  import opened Store
  import opened Runs

  /** The text of a chunk event: a string, something falsy that counts as empty, or anything else. */
  datatype TextField = Given(s: string) | Falsy | NotText

  /** A line of the request body after the header, parsed. */
  datatype Line = NotJson | NotObject | ChunkLine(text: TextField) | EndLine | UnknownType

  /** A line of the response. `End` carries the hallucinated placeholders. */
  datatype Event = Chunk(text: string) | End(hallucinated: set<string>) | Error

  predicate Feedable(line: Line) {
    line.ChunkLine? && !line.text.NotText?
  }

  function ChunkText(line: Line): string
    requires Feedable(line)
  {
    if line.text.Given? then line.text.s else ""
  }

  /** The chunks up to the first line that is not one. */
  function Received(lines: seq<Line>): seq<string> {
    if lines == [] || !Feedable(lines[0]) then [] else [ChunkText(lines[0])] + Received(lines[1..])
  }

  /** How a body ends: properly, by a protocol error, or by an uncaught `TypeError` on a chunk
      whose text is not a string. */
  datatype Ending = Finished | ProtocolError | Crash

  function EndingOf(lines: seq<Line>): Ending {
    if lines == [] then Finished
    else if Feedable(lines[0]) then EndingOf(lines[1..])
    else if lines[0].EndLine? then Finished
    else if lines[0].ChunkLine? then Crash
    else ProtocolError
  }

  /** What was received and how the body ends, line by line: the lines before the first that is
      not a chunk with a text, and what that one is. */
  lemma {:induction false} BodyMeans(lines: seq<Line>)
    ensures var received := Received(lines);
      var k := |received|;
      && k <= |lines|
      && (forall i | 0 <= i < k ::
            lines[i] == ChunkLine(Given(received[i])) || (lines[i] == ChunkLine(Falsy) && received[i] == ""))
      && (k == |lines| ==> EndingOf(lines) == Finished)
      && (k < |lines| ==>
            match lines[k]
            case EndLine => EndingOf(lines) == Finished
            case ChunkLine(text) => text == NotText && EndingOf(lines) == Crash
            case NotJson => EndingOf(lines) == ProtocolError
            case NotObject => EndingOf(lines) == ProtocolError
            case UnknownType => EndingOf(lines) == ProtocolError)
  {
    if lines != [] && Feedable(lines[0]) {
      BodyMeans(lines[1..]);
      var rest, received := Received(lines[1..]), Received(lines);
      assert received == [ChunkText(lines[0])] + rest;
      assert forall i | 0 <= i < |rest| :: received[i + 1] == rest[i] && lines[1..][i] == lines[i + 1];
      forall i | 0 <= i < |received|
        ensures lines[i] == ChunkLine(Given(received[i])) || (lines[i] == ChunkLine(Falsy) && received[i] == "")
      {
        if i > 0 { assert lines[i] == lines[1..][i - 1] && received[i] == rest[i - 1]; }
      }
    }
  }

  /** The texts of the chunk events, joined. */
  function Joined(events: seq<Event>): string {
    if events == [] then ""
    else Joined(events[..|events| - 1]) + if events[|events| - 1].Chunk? then events[|events| - 1].text else ""
  }

  predicate OnlyChunks(events: seq<Event>) {
    forall e | e in events :: e.Chunk? && e.text != ""
  }

  // ------------------------------------------------------------------- misses of a stream

  /** What the feeds look up in vain. */
  function FeedMisses(m: map<string, string>, carry: string, chunks: seq<string>): set<string>
    decreases |chunks|
  {
    if chunks == [] then {}
    else
      (if chunks[0] == "" then {} else Misses(m, Cut(carry + chunks[0]).0))
      + FeedMisses(m, FeedResult(m, carry, chunks[0]).1, chunks[1..])
  }

  /** What a whole stream looks up in vain, the flush included. */
  function StreamMisses(m: map<string, string>, chunks: seq<string>): set<string> {
    FeedMisses(m, "", chunks) + Misses(m, FeedAll(m, "", chunks).1)
  }

  lemma {:induction false} FeedSnoc(m: map<string, string>, carry: string, chunks: seq<string>, x: string)
    ensures var r := FeedAll(m, carry, chunks);
      var last := FeedResult(m, r.1, x);
      && FeedAll(m, carry, chunks + [x]) == (r.0 + last.0, last.1)
      && FeedMisses(m, carry, chunks + [x])
         == FeedMisses(m, carry, chunks) + (if x == "" then {} else Misses(m, Cut(r.1 + x).0))
    decreases |chunks|
  {
    hide FeedResult, Misses, Cut;
    var all := chunks + [x];
    if chunks == [] {
      assert all == [x] && all[1..] == [];
      assert FeedAll(m, carry, []) == ("", carry) && FeedAll(m, FeedResult(m, carry, x).1, []).0 == "";
      var out := FeedResult(m, carry, x).0;
      assert out + "" == out && "" + out == out;
    } else {
      assert all[0] == chunks[0] && all[1..] == chunks[1..] + [x];
      var first := FeedResult(m, carry, chunks[0]);
      FeedSnoc(m, first.1, chunks[1..], x);
      var rest := FeedAll(m, first.1, chunks[1..]);
      Associative(first.0, rest.0, FeedResult(m, rest.1, x).0);
    }
  }

  lemma OccursAppend(p: string, a: string, b: string)
    requires p != ""
    ensures Occurs(p, a + b) <==> Occurs(p, a) || Occurs(p, b) || Straddles(p, a, b)
  {
    assert (a + b)[0..|a|] == a && (a + b)[|a|..|a + b|] == b;
    if Occurs(p, a) { OccursInPart(p, a + b, 0, |a|); }
    if Occurs(p, b) { OccursInPart(p, a + b, |a|, |a + b|); }
    if i :| At(a + b, i, p) {
      if i + |p| <= |a| {
        SliceOfSlice(a + b, 0, |a|, i, i + |p|);
        assert At(a, i, p);
      } else if i >= |a| {
        SliceOfSlice(a + b, |a|, |a + b|, i - |a|, i - |a| + |p|);
        assert At(b, i - |a|, p);
      }
    }
  }

  lemma MissIsOccurrence(m: map<string, string>, s: string, p: string)
    ensures p in Misses(m, s) <==> IsPlaceholder(Narrow, p) && Occurs(p, s) && p !in m
  {
    MatchesAreOccurrences(Narrow, s, p);
  }

  lemma CutMisses(m: map<string, string>, combined: string, x: string, p: string)
    ensures var (e, h) := Cut(combined);
      && (p in Misses(m, e) || p in Misses(m, h + x) ==> p in Misses(m, combined + x))
      && (|p| <= 33 && p in Misses(m, combined + x) ==> p in Misses(m, e) || p in Misses(m, h + x))
  {
    hide Misses, IsPlaceholder, Occurs, Straddles, Cut;
    var (e, h) := Cut(combined);
    Associative(e, h, x);
    MissIsOccurrence(m, e, p);
    MissIsOccurrence(m, h + x, p);
    MissIsOccurrence(m, combined + x, p);
    if IsPlaceholder(Narrow, p) {
      PlaceholderShape(Narrow, p);
      OccursAppend(p, e, h + x);
      if |p| <= 33 { CutSafe(combined, x, p); }
    }
  }

  /** A stream reports only placeholders that occur without a readable row, and, up to 33
      characters, every one of them. */
  lemma {:induction false} FeedMissesAre(m: map<string, string>, carry: string, chunks: seq<string>, p: string)
    ensures var all := FeedMisses(m, carry, chunks) + Misses(m, FeedAll(m, carry, chunks).1);
      && (p in all ==> p in Misses(m, carry + Concat(chunks)))
      && (|p| <= 33 && p in Misses(m, carry + Concat(chunks)) ==> p in all)
    decreases |chunks|
  {
    hide Misses, Cut;
    if chunks == [] {
      assert carry + "" == carry;
    } else {
      var x := Concat(chunks[1..]);
      assert carry + (chunks[0] + x) == (carry + chunks[0]) + x;
      if chunks[0] == "" {
        assert carry + "" == carry;
        FeedMissesAre(m, carry, chunks[1..], p);
      } else {
        FeedMissesAre(m, Cut(carry + chunks[0]).1, chunks[1..], p);
        CutMisses(m, carry + chunks[0], x, p);
      }
    }
  }

  // -------------------------------------------------------------------------- the event loop

  /** The response to a body, given the readable rows of the workspace; `crashed` when the
      generator died on an uncaught exception. */
  method RestoreStream(lines: seq<Line>, rows: map<string, string>) returns (events: seq<Event>, crashed: bool)
    ensures crashed <==> EndingOf(lines) == Crash
    ensures crashed ==> OnlyChunks(events) && Joined(events) == FeedAll(rows, "", Received(lines)).0
    ensures !crashed ==> events != [] && OnlyChunks(events[..|events| - 1])
    ensures EndingOf(lines) == ProtocolError ==>
      && events[|events| - 1] == Error
      && Joined(events) == FeedAll(rows, "", Received(lines)).0
    ensures EndingOf(lines) == Finished ==>
      && events[|events| - 1] == End(StreamMisses(rows, Received(lines)))
      && Joined(events) == Stream(rows, Received(lines))
  {
    var reverse := new LookupReverse(rows);
    var unmasker := new StreamUnmasker(reverse);
    events, crashed := [], false;
    LoopStart(lines, rows);
    hide *;
    var i := 0;
    while i < |lines|
      invariant i <= |lines| && unmasker.mapping == reverse && reverse.rows == rows
      invariant fresh(reverse) && fresh(unmasker)
      invariant FedSoFar(lines, i, rows, events, unmasker.carry, reverse.hallucinated)
    {
      var line := lines[i];
      LineMeaning(lines, i, rows, events, unmasker.carry, reverse.hallucinated);
      if line.NotJson? || line.NotObject? || line.UnknownType? {
        events := events + [Error];
        return;
      } else if line.EndLine? {
        break;
      } else if line.text.NotText? {
        crashed := true;
        return;
      }
      var text := if line.text.Given? then line.text.s else "";
      ghost var carry, hallucinated, before := unmasker.carry, reverse.hallucinated, events;
      var out := unmasker.Feed(text);
      if out != "" {
        events := events + [Chunk(out)];
      }
      FedOneMore(lines, i, rows, before, carry, hallucinated, events, unmasker.carry, reverse.hallucinated);
      i := i + 1;
    }
    ghost var carry, hallucinated, before := unmasker.carry, reverse.hallucinated, events;
    var tail := unmasker.Flush();
    if tail != "" {
      events := events + [Chunk(tail)];
    }
    LoopEnd(lines, i, rows, before, carry, hallucinated, events, reverse.hallucinated);
    events := events + [End(reverse.hallucinated)];
  }

  /** After the first `i` lines, all of them chunks. */
  ghost predicate FedSoFar(lines: seq<Line>, i: nat, rows: map<string, string>, events: seq<Event>,
                           carry: string, hallucinated: set<string>)
  {
    && i <= |lines| && (forall j | 0 <= j < i :: Feedable(lines[j]))
    && OnlyChunks(events)
    && (Joined(events), carry) == FeedAll(rows, "", Received(lines[..i]))
    && hallucinated == FeedMisses(rows, "", Received(lines[..i]))
  }

  lemma LoopStart(lines: seq<Line>, rows: map<string, string>)
    ensures FedSoFar(lines, 0, rows, [], "", {})
  {
    assert lines[..0] == [];
  }

  lemma {:induction false} FeedableRun(lines: seq<Line>, i: nat)
    requires i <= |lines| && forall j | 0 <= j < i :: Feedable(lines[j])
    ensures Received(lines) == Received(lines[..i]) + Received(lines[i..])
    ensures EndingOf(lines) == EndingOf(lines[i..])
  {
    if i > 0 {
      FeedableRun(lines[1..], i - 1);
      assert lines[1..][..i - 1] == lines[..i][1..] && lines[1..][i - 1..] == lines[i..];
    } else {
      assert lines[..0] == [] && lines[0..] == lines;
    }
  }

  /** What the next line ends, when it is not a chunk. */
  lemma LineMeaning(lines: seq<Line>, i: nat, rows: map<string, string>, events: seq<Event>,
                    carry: string, hallucinated: set<string>)
    requires FedSoFar(lines, i, rows, events, carry, hallucinated) && i < |lines|
    ensures !Feedable(lines[i]) ==>
      && Received(lines) == Received(lines[..i])
      && EndingOf(lines)
         == (if lines[i].EndLine? then Finished else if lines[i].ChunkLine? then Crash else ProtocolError)
    ensures !Feedable(lines[i]) ==> Joined(events) == FeedAll(rows, "", Received(lines)).0
    ensures Joined(events + [Error]) == Joined(events) && OnlyChunks(events)
    ensures (events + [Error])[..|events + [Error]| - 1] == events
    ensures Feedable(lines[i]) <==> lines[i].ChunkLine? && !lines[i].text.NotText?
    ensures Feedable(lines[i]) ==> ChunkText(lines[i]) == if lines[i].text.Given? then lines[i].text.s else ""
  {
    FeedableRun(lines, i);
  }

  lemma FedOneMore(lines: seq<Line>, i: nat, rows: map<string, string>, events: seq<Event>, carry: string,
                   hallucinated: set<string>, events': seq<Event>, carry': string, hallucinated': set<string>)
    requires FedSoFar(lines, i, rows, events, carry, hallucinated) && i < |lines| && Feedable(lines[i])
    requires var r := FeedResult(rows, carry, ChunkText(lines[i]));
      carry' == r.1 && events' == if r.0 != "" then events + [Chunk(r.0)] else events
    requires ChunkText(lines[i]) == "" ==> hallucinated' == hallucinated
    requires ChunkText(lines[i]) != "" ==>
      hallucinated' == hallucinated + Misses(rows, Cut(carry + ChunkText(lines[i])).0)
    ensures FedSoFar(lines, i + 1, rows, events', carry', hallucinated')
  {
    hide FeedResult, Misses, Cut, FeedAll, FeedMisses, Joined;
    var text := ChunkText(lines[i]);
    FeedableRun(lines[..i + 1], i);
    assert lines[..i + 1][..i] == lines[..i] && lines[..i + 1][i..] == [lines[i]];
    assert Received([lines[i]]) == [text] by { assert [lines[i]][1..] == []; }
    hide Received;
    FeedSnoc(rows, "", Received(lines[..i]), text);
    JoinedSnoc(events, FeedResult(rows, carry, text).0);
    assert Received(lines[..i + 1]) == Received(lines[..i]) + [text];
    assert hallucinated + {} == hallucinated && Joined(events) + "" == Joined(events);
    assert Joined(events') == FeedAll(rows, "", Received(lines[..i + 1])).0;
    assert hallucinated' == FeedMisses(rows, "", Received(lines[..i + 1]));
  }

  lemma LoopEnd(lines: seq<Line>, i: nat, rows: map<string, string>, events: seq<Event>, carry: string,
                hallucinated: set<string>, events': seq<Event>, hallucinated': set<string>)
    requires FedSoFar(lines, i, rows, events, carry, hallucinated)
    requires i < |lines| ==> lines[i].EndLine?
    requires var tail := Substitute(Narrow, rows, carry);
      events' == if tail != "" then events + [Chunk(tail)] else events
    requires hallucinated' == hallucinated + Misses(rows, carry)
    ensures EndingOf(lines) == Finished && OnlyChunks(events')
    ensures var all := events' + [End(hallucinated')];
      && all[..|all| - 1] == events'
      && Joined(all) == Stream(rows, Received(lines))
      && hallucinated' == StreamMisses(rows, Received(lines))
  {
    hide Misses, FeedAll, FeedMisses, Substitute;
    FeedableRun(lines, i);
    assert i < |lines| || lines[i..] == [];
    assert Received(lines) == Received(lines[..i]);
    JoinedSnoc(events, Substitute(Narrow, rows, carry));
    var all := events' + [End(hallucinated')];
    assert all[..|all| - 1] == events';
  }

  lemma JoinedSnoc(events: seq<Event>, out: string)
    ensures Joined(events + [Chunk(out)]) == Joined(events) + out
  {
    assert (events + [Chunk(out)])[..|events|] == events;
  }

  // ------------------------------------------------------------- what the response promises

  /** Over short placeholders: after a proper end the chunks join to the unmasked input and the
      end event lists exactly the placeholders without a readable row; after an error, or a
      crash, what was sent is a prefix of the unmasked text received so far. */
  lemma StreamResponse(lines: seq<Line>, rows: map<string, string>)
    requires forall p | p in rows && IsPlaceholder(Narrow, p) :: |p| <= 33
    ensures var input := Concat(Received(lines));
      && Stream(rows, Received(lines)) == Substitute(Narrow, rows, input)
      && FeedAll(rows, "", Received(lines)).0 <= Substitute(Narrow, rows, input)
      && StreamMisses(rows, Received(lines)) <= Misses(rows, input)
      && forall p | |p| <= 33 :: p in StreamMisses(rows, Received(lines)) <==> p in Misses(rows, input)
  {
    var chunks := Received(lines);
    hide Misses, FeedMisses, FeedAll, Substitute, Stream, Received;
    StreamIsUnmask(rows, chunks);
    var done := FeedAllSplits(rows, "", chunks);
    assert "" + Concat(chunks) == Concat(chunks);
    hide Concat;
    forall p
      ensures p in StreamMisses(rows, chunks) ==> p in Misses(rows, Concat(chunks))
      ensures |p| <= 33 && p in Misses(rows, Concat(chunks)) ==> p in StreamMisses(rows, chunks)
    {
      FeedMissesAre(rows, "", chunks, p);
    }
  }

  /** So on every workspace: the chunks after a proper end join to what `restore` gives. */
  lemma StreamOnRuns(world: World, ws: string, key: nat, steps: seq<Step>, lines: seq<Line>)
    requires forall s | s in steps :: ShortText(s)
    ensures var w := Run(world, ws, Workspace(map[], key), steps);
      var rows, chunks := Readable(w.table, w.key), Received(lines);
      && Stream(rows, chunks) == BatchRestore(w, Concat(chunks))
      && FeedAll(rows, "", chunks).0 <= BatchRestore(w, Concat(chunks))
      && forall p | |p| <= 33 :: p in StreamMisses(rows, chunks) <==> p in Misses(rows, Concat(chunks))
  {
    ReachableTable(world, ws, key, steps);
    var w := Run(world, ws, Workspace(map[], key), steps);
    assert forall p | p in Readable(w.table, w.key) :: p in w.table;
    hide Run, Received, Stream, StreamMisses, Misses, FeedAll, BatchRestore, Readable;
    BatchIsDirect(w, Concat(Received(lines)));
    StreamResponse(lines, Readable(w.table, w.key));
  }

  // ------------------------------------------------------- what the two endpoints report

  lemma BatchMissIsOccurrence(m: map<string, string>, s: string, p: string)
    ensures p in BatchMisses(m, s) <==> IsPlaceholder(Wide, p) && Occurs(p, s) && p !in m
  {
    MatchesAreOccurrences(Wide, s, p);
  }

  /** The characters of a text, one by one. */
  function Characters(text: string): (chunks: seq<string>)
    ensures forall c | c in chunks :: |c| == 1
  {
    if text == "" then [] else [[text[0]]] + Characters(text[1..])
  }

  lemma {:induction false} CharactersJoin(text: string)
    ensures Concat(Characters(text)) == text
  {
    if text != "" {
      CharactersJoin(text[1..]);
      assert Characters(text)[1..] == Characters(text[1..]);
    }
  }

  lemma MissFits(m: map<string, string>, s: string, p: string)
    requires p in Misses(m, s)
    ensures IsPlaceholder(Narrow, p) && |p| <= |s|
  {
    MissIsOccurrence(m, s, p);
    var i :| At(s, i, p);
  }

  /** Fed character by character, a stream never sees a placeholder of more than 33. */
  lemma {:induction false} CharacterMissesShort(m: map<string, string>, carry: string, chunks: seq<string>, p: string)
    requires |carry| <= CARRY_BUFFER_SIZE && forall c | c in chunks :: |c| == 1
    requires p in FeedMisses(m, carry, chunks) + Misses(m, FeedAll(m, carry, chunks).1)
    ensures IsPlaceholder(Narrow, p) && |p| <= 33
    decreases |chunks|
  {
    hide Misses, IsPlaceholder, Substitute;
    if chunks == [] {
      MissFits(m, carry, p);
    } else {
      assert chunks[0] in chunks && forall c | c in chunks[1..] :: c in chunks;
      var (e, h) := Cut(carry + chunks[0]);
      assert |e + h| <= 33 && FeedResult(m, carry, chunks[0]).1 == h;
      hide Cut;
      if p in Misses(m, e) {
        MissFits(m, e, p);
      } else {
        CharacterMissesShort(m, h, chunks[1..], p);
      }
    }
  }

  /** The two endpoints report the same placeholders, however the text is cut, exactly when all
      that `restore` reports are narrow and at most 33 characters long. */
  lemma ReportsAgreeIff(m: map<string, string>, text: string)
    ensures (forall chunks | Concat(chunks) == text :: StreamMisses(m, chunks) == BatchMisses(m, text))
       <==> (forall p | p in BatchMisses(m, text) :: IsPlaceholder(Narrow, p) && |p| <= 33)
  {
    hide Misses, BatchMisses, FeedMisses, FeedAll, IsPlaceholder;
    if forall p | p in BatchMisses(m, text) :: IsPlaceholder(Narrow, p) && |p| <= 33 {
      forall chunks | Concat(chunks) == text ensures StreamMisses(m, chunks) == BatchMisses(m, text) {
        forall p ensures p in StreamMisses(m, chunks) <==> p in BatchMisses(m, text) {
          ReportedAlike(m, chunks, p);
        }
      }
    }
    if forall chunks | Concat(chunks) == text :: StreamMisses(m, chunks) == BatchMisses(m, text) {
      CharactersJoin(text);
      forall p | p in BatchMisses(m, text) ensures IsPlaceholder(Narrow, p) && |p| <= 33 {
        assert p in StreamMisses(m, Characters(text));
        CharacterMissesShort(m, "", Characters(text), p);
      }
    }
  }

  lemma ReportedAlike(m: map<string, string>, chunks: seq<string>, p: string)
    ensures p in StreamMisses(m, chunks) ==> p in BatchMisses(m, Concat(chunks))
    ensures p in BatchMisses(m, Concat(chunks)) && IsPlaceholder(Narrow, p) && |p| <= 33 ==>
      p in StreamMisses(m, chunks)
  {
    hide Misses, BatchMisses, FeedMisses, FeedAll, IsPlaceholder, Occurs;
    var text := Concat(chunks);
    assert "" + text == text;
    FeedMissesAre(m, "", chunks, p);
    MissIsOccurrence(m, text, p);
    BatchMissIsOccurrence(m, text, p);
    if IsPlaceholder(Narrow, p) { NarrowIsWide(p); }
  }
}
