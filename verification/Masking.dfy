/** Masking text through a mutable mapping, and unmasking it again (`mask_text` and
    `unmask_text` of `pii/masker.py`). */
module Masking {
  import opened Text
  import opened Placeholders
  import opened Neutralise
  import opened Detection
  import opened Mappings
  import opened Splicing

  /** What `_collect_detections` returns. */
  function Detections(o: Detectors, text: string): seq<Detection> {
    SortByStart(Greedy(MaskerCandidates(o, text)))
  }

  lemma DetectionsPlaced(o: Detectors, text: string)
    ensures Placed(text, Detections(o, text))
    ensures forall d | d in Detections(o, text) :: Within(d, text)
  {
    MaskerSelection(o, text);
    var ds := Detections(o, text);
    assert forall i | 0 <= i < |ds| :: ds[i] in ds;
  }

  /** `mask_text` as a function of the mapping's contents. */
  ghost function Masked(o: Detectors, m: Mapping, text: string): (Mapping, string) {
    if text == "" then (m, "")
    else
      var t := NeutraliseUserPlaceholders(text);
      var ds := Detections(o, t);
      DetectionsPlaced(o, t);
      (IssueAll(m, ds).0, Splice(t, ds, IssueAll(m, ds).1))
  }

  /** `unmask_text` as a function of the reverse table. */
  function Unmasked(reverse: map<string, string>, text: string): string {
    if text == "" || reverse == map[] then text else Substitute(Narrow, reverse, text)
  }

  lemma UnmaskedIsSubstitute(reverse: map<string, string>, text: string)
    ensures Unmasked(reverse, text) == Substitute(Narrow, reverse, text)
  {
    if text != "" && reverse == map[] {
      SubstituteNothing(text);
    }
  }

  lemma {:induction false} SubstituteNothing(text: string)
    ensures Substitute(Narrow, map[], text) == text
  {
    EmptyScan(Narrow, map[]);
    if text != "" {
      hide MatchLength, Substitute;
      var n := MatchLength(Narrow, text);
      SubstituteStep(Narrow, map[], text);
      SubstituteNothing(text[if n > 0 then n else 1..]);
    }
  }

  class PiiMapping {
    var forward: map<string, string>
    var reverse: map<string, string>
    var counters: map<string, nat>

    constructor ()
      ensures Contents() == EMPTY
    {
      forward, reverse, counters := map[], map[], map[];
    }

    function Contents(): Mapping
      reads this
    {
      Mapping(forward, reverse, counters)
    }

    /** `from_redis_dict`, in whatever order the table yields its placeholders. */
    constructor FromRedisDict(d: map<string, string>)
      ensures Reloaded(Contents(), d)
    {
      reverse, forward, counters := d, map[], map[];
      new;
      var todo := d.Keys;
      while todo != {}
        invariant todo <= d.Keys && reverse == d && counters == map[]
        invariant forall v | v in forward :: forward[v] in d && d[forward[v]] == v
        invariant forall p | p in d && p !in todo :: d[p] in forward
      {
        var p :| p in todo;
        forward := forward[d[p] := p];
        todo := todo - {p};
      }
    }
  }

  /** The placeholder of one detection, issued if its key has none yet. */
  method IssueFor(d: Detection, mapping: PiiMapping) returns (placeholder: string)
    modifies mapping
    ensures (mapping.Contents(), placeholder) == Issue(old(mapping.Contents()), d)
  {
    var cacheKey := if d.normalized.Some? then d.normalized.value else d.surface;
    if cacheKey in mapping.forward {
      placeholder := mapping.forward[cacheKey];
    } else {
      var n := (if d.category in mapping.counters then mapping.counters[d.category] else 0) + 1;
      mapping.counters := mapping.counters[d.category := n];
      placeholder := Placeholder(d.category, n);
      mapping.forward := mapping.forward[cacheKey := placeholder];
      mapping.reverse := mapping.reverse[placeholder := d.surface];
    }
  }

  /** Replaces PII in `text`, extending `mapping` in place. */
  method MaskText(o: Detectors, text: string, mapping: PiiMapping) returns (masked: string)
    modifies mapping
    ensures (mapping.Contents(), masked) == Masked(o, old(mapping.Contents()), text)
  {
    if text == "" {
      return "";
    }
    var t := NeutraliseUserPlaceholders(text);
    var detections := CollectDetections(o, t);
    DetectionsPlaced(o, t);
    if detections == [] {
      assert SpliceTo(t, [], []) + t[0..] == t;
      return t;
    }
    masked := MaskSpans(t, detections, mapping);
  }

  /** The replacing loop of `mask_text`. */
  method MaskSpans(t: string, detections: seq<Detection>, mapping: PiiMapping) returns (masked: string)
    requires Placed(t, detections)
    modifies mapping
    ensures mapping.Contents() == IssueAll(old(mapping.Contents()), detections).0
    ensures masked == Splice(t, detections, IssueAll(old(mapping.Contents()), detections).1)
  {
    PlacedPrefix(t, detections, 0);
    ghost var start := mapping.Contents();
    var out: seq<string> := [];
    var cursor: nat := 0;
    ghost var fills := [];
    LoopStart(t, detections, start);
    hide *;
    for i := 0 to |detections|
      invariant ReplacedSoFar(t, detections, i, start, mapping.Contents(), fills, out, cursor)
    {
      var d := detections[i];
      LoopBounds(t, detections, i, start, mapping.Contents(), fills, out, cursor);
      ghost var before, front := mapping.Contents(), out;
      if d.start > cursor {
        out := out + [t[cursor..d.start]];
      }
      var placeholder := IssueFor(d, mapping);
      out := out + [placeholder];
      LoopStep(t, detections, i, start, before, fills, front, out, cursor);
      cursor := d.end;
      fills := fills + [placeholder];
    }
    LoopEnd(t, detections, start, mapping.Contents(), fills, out, cursor);
    if cursor < |t| {
      out := out + [t[cursor..]];
    }
    masked := Concat(out);
  }

  // ------------------------------------- the replacing loop, shared by both maskers' proofs

  /** After `i` detections: the mapping, the placeholders and the pieces written so far. */
  ghost predicate ReplacedSoFar(t: string, ds: seq<Detection>, i: nat, start: Mapping, m: Mapping,
                                fills: seq<string>, out: seq<string>, cursor: nat)
  {
    && Placed(t, ds) && i <= |ds| && Placed(t, ds[..i])
    && cursor == EndOf(ds[..i]) <= |t|
    && (m, fills) == IssueAll(start, ds[..i])
    && Concat(out) == SpliceTo(t, ds[..i], fills)
  }

  lemma LoopStart(t: string, ds: seq<Detection>, start: Mapping)
    requires Placed(t, ds)
    ensures ReplacedSoFar(t, ds, 0, start, start, [], [], 0)
  {
    assert ds[..0] == [];
  }

  lemma LoopBounds(t: string, ds: seq<Detection>, i: nat, start: Mapping, m: Mapping,
                   fills: seq<string>, out: seq<string>, cursor: nat)
    requires ReplacedSoFar(t, ds, i, start, m, fills, out, cursor) && i < |ds|
    ensures cursor <= ds[i].start < ds[i].end <= |t|
  {
    PlacedPrefix(t, ds, i);
  }

  lemma LoopStep(t: string, ds: seq<Detection>, i: nat, start: Mapping, m: Mapping,
                 fills: seq<string>, front: seq<string>, out: seq<string>, cursor: nat)
    requires ReplacedSoFar(t, ds, i, start, m, fills, front, cursor) && i < |ds|
    requires cursor <= ds[i].start <= |t|
    requires var p := Issue(m, ds[i]).1;
      out == if ds[i].start > cursor then front + [t[cursor..ds[i].start]] + [p] else front + [p]
    ensures var r := Issue(m, ds[i]);
      ReplacedSoFar(t, ds, i + 1, start, r.0, fills + [r.1], out, ds[i].end)
  {
    var done, d := ds[..i], ds[i];
    PlacedPrefix(t, ds, i + 1);
    assert ds[..i + 1] == done + [d];
    IssueAllSnoc(start, done, d);
    hide Placed, InOrder, Issue, Concat, SpliceTo, IssueAll;
    PieceAdded(t, front, out, cursor, d.start, Issue(m, d).1);
    SpliceToSnoc(t, done, fills, d, Issue(m, d).1);
  }

  lemma LoopEnd(t: string, ds: seq<Detection>, start: Mapping, m: Mapping,
                fills: seq<string>, out: seq<string>, cursor: nat)
    requires ReplacedSoFar(t, ds, |ds|, start, m, fills, out, cursor)
    ensures (m, fills) == IssueAll(start, ds) && cursor <= |t|
    ensures Concat(if cursor < |t| then out + [t[cursor..]] else out) == Splice(t, ds, fills)
  {
    assert ds[..|ds|] == ds;
    ConcatSnoc(out, t[cursor..]);
  }

  lemma PieceAdded(t: string, front: seq<string>, out: seq<string>, cursor: nat, start: nat, placeholder: string)
    requires cursor <= start <= |t|
    requires out == if start > cursor then front + [t[cursor..start]] + [placeholder] else front + [placeholder]
    ensures Concat(out) == Concat(front) + t[cursor..start] + placeholder
  {
    hide Concat;
    if start > cursor {
      ConcatSnoc(front, t[cursor..start]);
      ConcatSnoc(front + [t[cursor..start]], placeholder);
    } else {
      ConcatSnoc(front, placeholder);
      assert t[cursor..start] == "" && Concat(front) + "" == Concat(front);
    }
  }
}
