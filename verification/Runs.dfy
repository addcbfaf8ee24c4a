/** A workspace's table over whole runs of the service (`pipeline.py` with
    `mapping_store.py`): every step any caller can take, and what holds after all of them. */
module Runs {
  import opened Text
  import opened Placeholders
  import opened Neutralise
  import opened Detection
  import opened Policy
  import opened DegradedMode
  import opened PolicyMasking
  import opened PolicyRoundTrip
  import opened Store
  import opened Streaming
  import opened Masking

  /** What the service does not compute itself: detectors, and the truncated SHA-256. */
  datatype World = World(detectors: Detectors, hash: string -> string)

  /** A workspace: its table, and the key its rows are written and read under. */
  datatype Workspace = Workspace(table: Table, key: nat)

  datatype Step =
    | Anonymize(ws: string, text: string, profile: string, session: string, mode: Mode)
    | Restore(ws: string, text: string)
    | StreamRestore(ws: string, chunks: seq<string>)
    | ToolCall(ws: string, args: seq<string>)
    | PurgeRows(ws: string, scope: Scope)
    | Rekey(ws: string, key: nat)

  function RowFor(world: World, key: nat, session: string, e: Info): Row {
    Row(e.original, e.category, session, world.hash(e.original), key)
  }

  /** One `put` per entry of the info map. */
  function PutAll(world: World, w: Workspace, session: string, info: seq<Info>): Workspace {
    if info == [] then w
    else
      var e := info[|info| - 1];
      var front := PutAll(world, w, session, info[..|info| - 1]);
      Workspace(front.table[e.placeholder := RowFor(world, w.key, session, e)], w.key)
  }

  /** The info map of an anonymize step; empty when the profile is unknown. */
  ghost function InfoOfStep(world: World, step: Step): seq<Info> {
    if step.Anonymize? && Profile(step.profile).Some? then
      PolicyMasked(world.detectors, step.text, Profile(step.profile).value, step.mode).1
    else []
  }

  /** What a step does to the workspace named `ws`. */
  ghost function StepOn(world: World, ws: string, w: Workspace, step: Step): Workspace {
    if step.ws != ws then w
    else
      match step
      case Anonymize(_, _, _, session, _) => PutAll(world, w, session, InfoOfStep(world, step))
      case PurgeRows(_, scope) => if ValidScope(scope) then w.(table := Purged(w.table, scope)) else w
      case Rekey(_, key) => w.(key := key)
      case _ => w
  }

  ghost function Run(world: World, ws: string, w: Workspace, steps: seq<Step>): Workspace {
    if steps == [] then w
    else StepOn(world, ws, Run(world, ws, w, steps[..|steps| - 1]), steps[|steps| - 1])
  }

  lemma {:induction false} RunAppend(world: World, ws: string, w: Workspace, a: seq<Step>, b: seq<Step>)
    ensures Run(world, ws, w, a + b) == Run(world, ws, Run(world, ws, w, a), b)
  {
    hide StepOn;
    if b == [] {
      assert a + b == a;
    } else {
      var n := |b| - 1;
      assert (a + b)[..|a| + n] == a + b[..n];
      RunAppend(world, ws, w, a, b[..n]);
    }
  }

  /** Entry `i` is the one the info map keeps for `p`. */
  ghost predicate EntryFor(info: seq<Info>, p: string, i: nat) {
    i < |info| && info[i].placeholder == p && p in Originals(info) && info[i].original == Originals(info)[p]
  }

  /** After the puts: the entries' own rows, and every other row as it was. */
  lemma {:induction false} PutAllRows(world: World, w: Workspace, session: string, info: seq<Info>, p: string)
    ensures var t := PutAll(world, w, session, info).table;
      && (p in t <==> p in w.table || p in Originals(info))
      && (p in Originals(info) ==>
            exists i: nat :: EntryFor(info, p, i) && t[p] == RowFor(world, w.key, session, info[i]))
      && (p !in Originals(info) && p in w.table ==> t[p] == w.table[p])
    ensures PutAll(world, w, session, info).key == w.key
  {
    if info != [] {
      var n := |info| - 1;
      PutAllRows(world, w, session, info[..n], p);
      if p == info[n].placeholder {
        assert EntryFor(info, p, n);
      } else if p in Originals(info[..n]) {
        var i: nat :| EntryFor(info[..n], p, i)
          && PutAll(world, w, session, info[..n]).table[p] == RowFor(world, w.key, session, info[..n][i]);
        assert EntryFor(info, p, i);
      }
    }
  }

  // --------------------------------------------------- what every reachable table satisfies

  /** Each row's subject is the hash of its original, so purging a subject removes it. */
  ghost predicate SubjectsHold(world: World, t: Table) {
    forall p | p in t :: t[p].subject == world.hash(t[p].original)
  }

  /** Only narrow placeholders of at most 33 characters. */
  ghost predicate KeysHold(t: Table) {
    forall p | p in t :: IsPlaceholder(Narrow, p) && |p| <= 33
  }

  ghost predicate ShortText(step: Step) {
    step.Anonymize? ==> |step.text| < 1_000_000_000_000_000_000
  }

  lemma StepKeepsSubjects(world: World, ws: string, w: Workspace, step: Step)
    requires SubjectsHold(world, w.table)
    ensures SubjectsHold(world, StepOn(world, ws, w, step).table)
  {
    hide InfoOfStep;
    if step.Anonymize? && step.ws == ws {
      var info := InfoOfStep(world, step);
      var t := PutAll(world, w, step.session, info).table;
      forall p | p in t ensures t[p].subject == world.hash(t[p].original) {
        PutAllRows(world, w, step.session, info, p);
      }
    }
  }

  lemma StepKeepsKeys(world: World, ws: string, w: Workspace, step: Step)
    requires KeysHold(w.table) && ShortText(step)
    ensures KeysHold(StepOn(world, ws, w, step).table)
  {
    hide IsPlaceholder;
    if step.Anonymize? && step.ws == ws {
      var info := InfoOfStep(world, step);
      var t := PutAll(world, w, step.session, info).table;
      OriginalsKeys(info);
      if Profile(step.profile).Some? {
        ShortPlaceholders(world.detectors, step.text, Profile(step.profile).value, step.mode);
      }
      hide InfoOfStep, PolicyMasked;
      forall p | p in t ensures IsPlaceholder(Narrow, p) && |p| <= 33 {
        PutAllRows(world, w, step.session, info, p);
      }
    }
  }

  /** Each row's category is the type of its placeholder. */
  ghost predicate TypesHold(t: Table) {
    forall p | p in t :: OfType(p, t[p].category)
  }

  lemma StepKeepsTypes(world: World, ws: string, w: Workspace, step: Step)
    requires TypesHold(w.table)
    ensures TypesHold(StepOn(world, ws, w, step).table)
  {
    hide OfType;
    if step.Anonymize? && step.ws == ws {
      var info := InfoOfStep(world, step);
      var t := PutAll(world, w, step.session, info).table;
      forall p | p in t ensures OfType(p, t[p].category) {
        PutAllRows(world, w, step.session, info, p);
        if p in Originals(info) {
          var i: nat :| EntryFor(info, p, i) && t[p] == RowFor(world, w.key, step.session, info[i]);
          InfoTyped(world, step, info[i]);
        }
      }
    }
  }

  lemma InfoTyped(world: World, step: Step, e: Info)
    requires e in InfoOfStep(world, step)
    ensures OfType(e.placeholder, e.category)
  {
    hide OfType;
    var profile := Profile(step.profile).value;
    if step.text != "" {
      PolicyMaskedParts(world.detectors, step.text, profile, step.mode);
      var ds := PolicyDetectionsIn(world.detectors, step.text, profile, step.mode);
      var d := InfoEntry(ds, e);
    }
  }

  /** All hold of every table reachable from an empty one. */
  lemma {:induction false} ReachableTable(world: World, ws: string, key: nat, steps: seq<Step>)
    ensures SubjectsHold(world, Run(world, ws, Workspace(map[], key), steps).table)
    ensures TypesHold(Run(world, ws, Workspace(map[], key), steps).table)
    ensures (forall s | s in steps :: ShortText(s)) ==> KeysHold(Run(world, ws, Workspace(map[], key), steps).table)
  {
    hide StepOn, SubjectsHold, TypesHold, KeysHold, ShortText;
    if steps == [] {
      EmptyTableHolds(world);
    } else {
      var n := |steps| - 1;
      var before := Run(world, ws, Workspace(map[], key), steps[..n]);
      ReachableTable(world, ws, key, steps[..n]);
      StepKeepsSubjects(world, ws, before, steps[n]);
      StepKeepsTypes(world, ws, before, steps[n]);
      if forall s | s in steps :: ShortText(s) {
        assert steps[n] in steps;
        StepKeepsKeys(world, ws, before, steps[n]);
      }
    }
  }

  lemma EmptyTableHolds(world: World)
    ensures SubjectsHold(world, map[]) && TypesHold(map[]) && KeysHold(map[])
  {}

  // -------------------------------------------------------------- three ways of restoring

  /** `Pipeline.restore`: collect the wide matches, look each up, unmask with what was found. */
  ghost function BatchRestore(w: Workspace, text: string): string {
    Unmasked(Collected(w, text), text)
  }

  ghost function Collected(w: Workspace, text: string): map<string, string> {
    map p | p in Readable(w.table, w.key) && p in Matches(Wide, text) :: Readable(w.table, w.key)[p]
  }

  /** What `restore` reports: wide matches for which no row can be read. */
  function BatchMisses(m: map<string, string>, text: string): set<string> {
    set p | p in Matches(Wide, text) && p !in m
  }

  /** `_substitute_placeholders`: look up each wide match where it stands. */
  function ToolRestore(w: Workspace, text: string): string {
    Substitute(Wide, Readable(w.table, w.key), text)
  }

  /** `/restore_stream`: the streaming unmasker over the same lookups. */
  function StreamedRestore(w: Workspace, chunks: seq<string>): string {
    Stream(Readable(w.table, w.key), chunks)
  }

  lemma BatchIsDirect(w: Workspace, text: string)
    ensures BatchRestore(w, text) == Substitute(Narrow, Readable(w.table, w.key), text)
  {
    var m, c := Readable(w.table, w.key), Collected(w, text);
    UnmaskedIsSubstitute(c, text);
    forall p | p in Matches(Narrow, text) ensures Entry(c, p) == Entry(m, p) {
      MatchesAreOccurrences(Narrow, text, p);
      MatchesAreOccurrences(Wide, text, p);
      NarrowIsWide(p);
    }
    SubstituteSame(Narrow, c, m, text);
  }

  /** On every table whose keys are short narrow placeholders the three paths agree, for every
      text and every way of cutting it into chunks. */
  lemma ThreePathsAgree(w: Workspace, chunks: seq<string>)
    requires KeysHold(w.table)
    ensures var direct := Substitute(Narrow, Readable(w.table, w.key), Concat(chunks));
      && BatchRestore(w, Concat(chunks)) == direct
      && ToolRestore(w, Concat(chunks)) == direct
      && StreamedRestore(w, chunks) == direct
  {
    BatchIsDirect(w, Concat(chunks));
    hide Substitute, BatchRestore, Stream, Concat, IsPlaceholder;
    WideIsNarrow(Readable(w.table, w.key), Concat(chunks));
    StreamIsUnmask(Readable(w.table, w.key), chunks);
  }

  /** So they agree after every run over texts shorter than 10^18 characters. */
  lemma ThreePathsAgreeOnRuns(world: World, ws: string, key: nat, steps: seq<Step>, chunks: seq<string>)
    requires forall s | s in steps :: ShortText(s)
    ensures var w := Run(world, ws, Workspace(map[], key), steps);
      BatchRestore(w, Concat(chunks)) == ToolRestore(w, Concat(chunks)) == StreamedRestore(w, chunks)
  {
    hide *;
    ReachableTable(world, ws, key, steps);
    ThreePathsAgree(Run(world, ws, Workspace(map[], key), steps), chunks);
  }

  // ----------------------------------------------------------------------- last writer wins

  /** Step `s` writes a row for `p` in workspace `ws`. */
  ghost predicate Writes(world: World, ws: string, p: string, s: Step) {
    s.ws == ws && p in Originals(InfoOfStep(world, s))
  }

  ghost predicate Erases(ws: string, r: Row, s: Step) {
    s.ws == ws && s.PurgeRows? && ValidScope(s.scope) && Covers(s.scope, r)
  }

  /** Row `r` was written for `p` by step `i` of the run. */
  ghost predicate WrittenAt(world: World, ws: string, w: Workspace, steps: seq<Step>, p: string, i: nat, r: Row) {
    && i < |steps| && Writes(world, ws, p, steps[i])
    && var t := StepOn(world, ws, Run(world, ws, w, steps[..i]), steps[i]).table;
       p in t && t[p] == r
  }

  /** No later step wrote a row for `p` or erased `r`. */
  ghost predicate Untouched(world: World, ws: string, steps: seq<Step>, p: string, i: nat, r: Row) {
    forall j | i < j < |steps| :: !Writes(world, ws, p, steps[j]) && !Erases(ws, r, steps[j])
  }

  /** What one step does to the row of one placeholder. */
  lemma StepOnRow(world: World, ws: string, w: Workspace, s: Step, p: string)
    ensures var t := StepOn(world, ws, w, s).table;
      && (Writes(world, ws, p, s) ==> p in t)
      && (!Writes(world, ws, p, s) ==> (p in t <==> p in w.table && !Erases(ws, w.table[p], s))
                                       && (p in t ==> t[p] == w.table[p]))
  {
    if s.Anonymize? && s.ws == ws {
      var info := InfoOfStep(world, s);
      hide InfoOfStep;
      PutAllRows(world, w, s.session, info, p);
    }
  }

  /** Both notions seen one step earlier. */
  lemma OneStepEarlier(world: World, ws: string, w: Workspace, steps: seq<Step>, p: string, i: nat, r: Row)
    requires i < |steps| - 1
    ensures var front, s := steps[..|steps| - 1], steps[|steps| - 1];
      && (WrittenAt(world, ws, w, steps, p, i, r) <==> WrittenAt(world, ws, w, front, p, i, r))
      && (Untouched(world, ws, steps, p, i, r) <==>
            Untouched(world, ws, front, p, i, r) && !Writes(world, ws, p, s) && !Erases(ws, r, s))
  {
    hide StepOn, Run, Writes, Erases;
    var front, n := steps[..|steps| - 1], |steps| - 1;
    assert front[..i] == steps[..i] && front[i] == steps[i];
    if Untouched(world, ws, steps, p, i, r) {
      forall j | i < j < |front| ensures !Writes(world, ws, p, front[j]) && !Erases(ws, r, front[j]) {
        assert front[j] == steps[j];
      }
    }
    if Untouched(world, ws, front, p, i, r) && !Writes(world, ws, p, steps[n]) && !Erases(ws, r, steps[n]) {
      forall j | i < j < |steps| ensures !Writes(world, ws, p, steps[j]) && !Erases(ws, r, steps[j]) {
        assert j < n ==> front[j] == steps[j];
      }
    }
  }

  ghost predicate LastWrite(world: World, ws: string, w: Workspace, steps: seq<Step>, p: string, i: nat, r: Row) {
    WrittenAt(world, ws, w, steps, p, i, r) && Untouched(world, ws, steps, p, i, r)
  }

  /** The row of a placeholder is there exactly when some step wrote it and nothing later
      overwrote or erased it; and it is the row that step wrote. */
  lemma {:induction false} LastWriterWins(world: World, ws: string, key: nat, steps: seq<Step>, p: string, r: Row)
    ensures var w := Workspace(map[], key);
      var t := Run(world, ws, w, steps).table;
      (p in t && t[p] == r) <==> exists i: nat :: LastWrite(world, ws, w, steps, p, i, r)
  {
    hide StepOn, Writes, Erases, Untouched;
    var w := Workspace(map[], key);
    if steps != [] {
      var n := |steps| - 1;
      var front, s := steps[..n], steps[n];
      var before := Run(world, ws, w, front);
      LastWriterWins(world, ws, key, front, p, r);
      StepOnRow(world, ws, before, s, p);
      LastStep(world, ws, w, steps, p, r);
      forall i: nat | i < n { OneStepEarlier(world, ws, w, steps, p, i, r); }
      hide WrittenAt;
      var t := StepOn(world, ws, before, s).table;
      if p in t && t[p] == r && !Writes(world, ws, p, s) {
        var i: nat :| LastWrite(world, ws, w, front, p, i, r);
        assert i < n by { WrittenInRange(world, ws, w, front, p, i, r); }
        assert LastWrite(world, ws, w, steps, p, i, r);
      }
      if i: nat :| LastWrite(world, ws, w, steps, p, i, r) {
        WrittenInRange(world, ws, w, steps, p, i, r);
        if i < n { assert LastWrite(world, ws, w, front, p, i, r); }
      }
    }
  }

  lemma WrittenInRange(world: World, ws: string, w: Workspace, steps: seq<Step>, p: string, i: nat, r: Row)
    requires WrittenAt(world, ws, w, steps, p, i, r)
    ensures i < |steps|
  {}

  lemma LastStep(world: World, ws: string, w: Workspace, steps: seq<Step>, p: string, r: Row)
    requires steps != []
    ensures var n := |steps| - 1;
      var t := StepOn(world, ws, Run(world, ws, w, steps[..n]), steps[n]).table;
      LastWrite(world, ws, w, steps, p, n, r) <==> Writes(world, ws, p, steps[n]) && p in t && t[p] == r
  {
    hide StepOn, Writes, Erases, Run;
  }

  // ------------------------------------------------------- restoring after an anonymize step

  /** The rows of one anonymize call, still in place and readable. */
  ghost predicate Holds(world: World, w: Workspace, originals: map<string, string>, session: string) {
    forall p | p in originals :: p in w.table && w.table[p].original == originals[p]
      && w.table[p].session == session && w.table[p].subject == world.hash(originals[p]) && w.table[p].key == w.key
  }

  /** A later step that leaves those rows alone: any restore or tool call, anything in another
      workspace, an anonymize call with other placeholders, a purge of another session or of
      subjects that do not occur, and opening the store under the same key. */
  ghost predicate Harmless(world: World, ws: string, key: nat, originals: map<string, string>,
                           session: string, s: Step)
  {
    s.ws != ws ||
    match s
    case Anonymize(_, _, _, _, _) => forall p | p in originals :: p !in Originals(InfoOfStep(world, s))
    case PurgeRows(_, scope) =>
      && scope.scope != "all"
      && !(scope.scope == "session" && scope.session == Some(session))
      && !(scope.scope == "subject" && exists p :: p in originals && scope.subject == Some(world.hash(originals[p])))
    case Rekey(_, k) => k == key
    case _ => true
  }

  lemma HarmlessKeeps(world: World, ws: string, w: Workspace, originals: map<string, string>, session: string, s: Step)
    requires Holds(world, w, originals, session) && Harmless(world, ws, w.key, originals, session, s)
    ensures Holds(world, StepOn(world, ws, w, s), originals, session) && StepOn(world, ws, w, s).key == w.key
  {
    var w' := StepOn(world, ws, w, s);
    if s.Anonymize? && s.ws == ws {
      var info := InfoOfStep(world, s);
      PutAllRows(world, w, s.session, info, "");
      hide InfoOfStep;
      forall p | p in originals ensures p in w'.table && w'.table[p] == w.table[p] {
        PutAllRows(world, w, s.session, info, p);
      }
    } else if s.PurgeRows? && s.ws == ws {
      forall p | p in originals ensures !Covers(s.scope, w.table[p]) {}
    }
  }

  lemma {:induction false} HarmlessRunKeeps(world: World, ws: string, w: Workspace, originals: map<string, string>,
                                            session: string, steps: seq<Step>)
    requires Holds(world, w, originals, session)
    requires forall s | s in steps :: Harmless(world, ws, w.key, originals, session, s)
    ensures var w' := Run(world, ws, w, steps);
      Holds(world, w', originals, session) && w'.key == w.key
  {
    hide Holds, Harmless, StepOn;
    if steps != [] {
      var n := |steps| - 1;
      assert steps[n] in steps;
      HarmlessRunKeeps(world, ws, w, originals, session, steps[..n]);
      HarmlessKeeps(world, ws, Run(world, ws, w, steps[..n]), originals, session, steps[n]);
    }
  }

  lemma AnonymizeHolds(world: World, w: Workspace, s: Step)
    requires s.Anonymize?
    ensures var w' := StepOn(world, s.ws, w, s);
      Holds(world, w', Originals(InfoOfStep(world, s)), s.session) && w'.key == w.key
  {
    var info := InfoOfStep(world, s);
    hide InfoOfStep;
    PutAllRows(world, w, s.session, info, "");
    forall p | p in Originals(info)
      ensures var t := PutAll(world, w, s.session, info).table;
        p in t && t[p].original == Originals(info)[p] && t[p].session == s.session
        && t[p].subject == world.hash(Originals(info)[p]) && t[p].key == w.key
    {
      PutAllRows(world, w, s.session, info, p);
    }
  }

  /** From any table, after an anonymize call and any harmless steps, restoring the text it
      returned gives the neutralised input with each span's recorded surface. */
  lemma RestoreAfterAnonymize(world: World, w: Workspace, s: Step, later: seq<Step>)
    requires s.Anonymize? && Profile(s.profile).Some?
    requires forall x | x in later ::
      Harmless(world, s.ws, w.key, Originals(InfoOfStep(world, s)), s.session, x)
    ensures var profile := Profile(s.profile).value;
      BatchRestore(Run(world, s.ws, StepOn(world, s.ws, w, s), later),
                   PolicyMasked(world.detectors, s.text, profile, s.mode).0)
      == PolicyRestored(world.detectors, s.text, profile, s.mode)
  {
    var profile := Profile(s.profile).value;
    var originals := Originals(InfoOfStep(world, s));
    var w' := StepOn(world, s.ws, w, s);
    AnonymizeHolds(world, w, s);
    assert originals == Originals(PolicyMasked(world.detectors, s.text, profile, s.mode).1);
    hide PolicyMasked, Originals, StepOn, Run, Substitute, InfoOfStep, BatchRestore, PolicyRestored;
    HarmlessRunKeeps(world, s.ws, w', originals, s.session, later);
    var final := Run(world, s.ws, w', later);
    BatchIsDirect(final, PolicyMasked(world.detectors, s.text, profile, s.mode).0);
    RestoresMasked(world.detectors, s.text, profile, s.mode, Readable(final.table, final.key));
  }

  /** In any mode, when every key has one surface that is the neutralised input itself; so the
      input comes back unchanged exactly when it held no placeholder to begin with. */
  lemma RoundTripIff(world: World, w: Workspace, s: Step, later: seq<Step>)
    requires s.Anonymize? && Profile(s.profile).Some?
    requires OneSurfacePerKey(PolicyDetectionsIn(world.detectors, s.text, Profile(s.profile).value, s.mode))
    requires forall x | x in later ::
      Harmless(world, s.ws, w.key, Originals(InfoOfStep(world, s)), s.session, x)
    ensures var restored := BatchRestore(Run(world, s.ws, StepOn(world, s.ws, w, s), later),
                                         PolicyMasked(world.detectors, s.text, Profile(s.profile).value, s.mode).0);
      && restored == NeutraliseUserPlaceholders(s.text)
      && (restored == s.text <==> MatchFree(Narrow, s.text))
  {
    hide *;
    RestoreAfterAnonymize(world, w, s, later);
    SameSurfacesRestoreAll(world.detectors, s.text, Profile(s.profile).value, s.mode);
    NeutraliseIdentityIff(s.text);
  }

  /** In degraded and emergency mode that holds of every text. */
  lemma RegexModesRoundTripIff(world: World, w: Workspace, s: Step, later: seq<Step>)
    requires s.Anonymize? && Profile(s.profile).Some? && s.mode != Full
    requires forall x | x in later ::
      Harmless(world, s.ws, w.key, Originals(InfoOfStep(world, s)), s.session, x)
    ensures var restored := BatchRestore(Run(world, s.ws, StepOn(world, s.ws, w, s), later),
                                         PolicyMasked(world.detectors, s.text, Profile(s.profile).value, s.mode).0);
      && restored == NeutraliseUserPlaceholders(s.text)
      && (restored == s.text <==> MatchFree(Narrow, s.text))
  {
    hide *;
    RegexModesOneSurface(world.detectors, s.text, Profile(s.profile).value, s.mode);
    RoundTripIff(world, w, s, later);
  }

  // ----------------------------------------------------------------------------- purging

  lemma WrittenRow(world: World, ws: string, w: Workspace, s: Step, p: string)
    requires Writes(world, ws, p, s)
    ensures var t := StepOn(world, ws, w, s).table;
      && p in t && p in Originals(InfoOfStep(world, s)) && t[p].original == Originals(InfoOfStep(world, s))[p]
      && s.Anonymize? && s.ws == ws && t[p].session == s.session
  {
    assert s.Anonymize?;
    PutAllRows(world, w, s.session, InfoOfStep(world, s), p);
  }

  /** No row's original has this hash. */
  ghost predicate Gone(world: World, t: Table, subject: string) {
    forall p | p in t :: world.hash(t[p].original) != subject
  }

  /** `s` writes no value with this hash. */
  ghost predicate Spares(world: World, ws: string, subject: string, s: Step) {
    forall p | Writes(world, ws, p, s) :: world.hash(Originals(InfoOfStep(world, s))[p]) != subject
  }

  lemma {:induction false} StaysGone(world: World, ws: string, w: Workspace, subject: string, later: seq<Step>)
    requires Gone(world, w.table, subject) && forall s | s in later :: Spares(world, ws, subject, s)
    ensures Gone(world, Run(world, ws, w, later).table, subject)
  {
    hide Writes, InfoOfStep, Originals, StepOn;
    if later != [] {
      var n := |later| - 1;
      var before, s := Run(world, ws, w, later[..n]), later[n];
      assert s in later;
      StaysGone(world, ws, w, subject, later[..n]);
      var t := StepOn(world, ws, before, s).table;
      forall p | p in t ensures world.hash(t[p].original) != subject {
        StepOnRow(world, ws, before, s, p);
        if Writes(world, ws, p, s) { WrittenRow(world, ws, before, s, p); }
      }
    }
  }

  /** Once a subject is purged, no placeholder of the workspace restores to a value with that
      hash, through any later steps that do not anonymize such a value again. */
  lemma PurgedSubjectStaysGone(world: World, ws: string, w: Workspace, subject: string, later: seq<Step>)
    requires SubjectsHold(world, w.table)
    requires forall s | s in later :: Spares(world, ws, subject, s)
    ensures var purge := PurgeRows(ws, Scope("subject", None, Some(subject)));
      var final := Run(world, ws, StepOn(world, ws, w, purge), later);
      && Gone(world, final.table, subject)
      && forall p | p in Readable(final.table, final.key) :: world.hash(Readable(final.table, final.key)[p]) != subject
  {
    var purge := PurgeRows(ws, Scope("subject", None, Some(subject)));
    StaysGone(world, ws, StepOn(world, ws, w, purge), subject, later);
  }

  ghost predicate NoneOfSession(t: Table, session: string) {
    forall p | p in t :: t[p].session != session
  }

  lemma {:induction false} SessionStaysGone(world: World, ws: string, w: Workspace, session: string, later: seq<Step>)
    requires NoneOfSession(w.table, session)
    requires forall s | s in later && s.Anonymize? && s.ws == ws :: s.session != session
    ensures NoneOfSession(Run(world, ws, w, later).table, session)
  {
    hide Writes, InfoOfStep, Originals, StepOn;
    if later != [] {
      var n := |later| - 1;
      var before, s := Run(world, ws, w, later[..n]), later[n];
      assert s in later;
      SessionStaysGone(world, ws, w, session, later[..n]);
      var t := StepOn(world, ws, before, s).table;
      forall p | p in t ensures t[p].session != session {
        StepOnRow(world, ws, before, s, p);
        if Writes(world, ws, p, s) { WrittenRow(world, ws, before, s, p); }
      }
    }
  }

  /** Once a session is purged, no row of the workspace belongs to it, through any later steps
      that do not anonymize in it. */
  lemma PurgedSessionStaysGone(world: World, ws: string, w: Workspace, session: string, later: seq<Step>)
    requires forall s | s in later && s.Anonymize? && s.ws == ws :: s.session != session
    ensures var purge := PurgeRows(ws, Scope("session", Some(session), None));
      forall p | p in Run(world, ws, StepOn(world, ws, w, purge), later).table ::
        Run(world, ws, StepOn(world, ws, w, purge), later).table[p].session != session
  {
    var after := StepOn(world, ws, w, PurgeRows(ws, Scope("session", Some(session), None)));
    forall p | p in after.table ensures after.table[p].session != session {
      PurgedRows(w.table, Scope("session", Some(session), None), p);
    }
    hide Run;
    SessionStaysGone(world, ws, after, session, later);
  }

  // ------------------------------------------------------------------------- other keys

  /** Under a key that wrote no row nothing is restored, on any of the three paths. */
  lemma OtherKeyRestoresNothing(w: Workspace, chunks: seq<string>)
    requires forall p | p in w.table :: w.table[p].key != w.key
    ensures var text := Concat(chunks);
      BatchRestore(w, text) == text && ToolRestore(w, text) == text && StreamedRestore(w, chunks) == text
  {
    forall p ensures p !in Readable(w.table, w.key) { ReadableRows(w.table, w.key, p); }
    assert Readable(w.table, w.key) == map[];
    BatchIsDirect(w, Concat(chunks));
    hide Readable, BatchRestore;
    SubstituteNothing(Concat(chunks));
    WideIsNarrow(map[], Concat(chunks));
    StreamIsUnmask(map[], chunks);
  }
}
