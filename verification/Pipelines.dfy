/** The orchestrator (`Pipeline` of `pipeline.py`): every method takes each workspace from one
    state to the next exactly as the step of module `Runs` says. */
module Pipelines {
  import opened Text
  import opened Placeholders
  import opened Neutralise
  import opened Detection
  import opened Masking
  import opened Policy
  import opened DegradedMode
  import opened PolicyMasking
  import opened PolicyRoundTrip
  import opened SelectionByType
  import opened Store
  import opened Runs

  datatype Entity = Entity(placeholder: string, category: string, confidence: real)

  datatype AnonymizeResult = AnonymizeResult(maskedText: string, entities: seq<Entity>, degradedMode: bool)

  function EntitiesOf(info: seq<Info>): seq<Entity> {
    seq(|info|, i requires 0 <= i < |info| => Entity(info[i].placeholder, info[i].category, info[i].confidence))
  }

  /** The entities of a call: placeholders of the masked text, each with the type it shows and
      the confidence of a span of that type; only names are less than certain. */
  lemma EntitiesMean(o: Detectors, text: string, profile: PolicyProfile, mode: Mode, e: Entity)
    requires e in EntitiesOf(PolicyMasked(o, text, profile, mode).1)
    ensures e.placeholder in Matches(Narrow, PolicyMasked(o, text, profile, mode).0)
    ensures OfType(e.placeholder, e.category)
    ensures e.category != "NAME" ==> e.confidence == 1.0
    ensures e.category == "NAME" ==> mode == Full && exists p ::
      p in o.findPersons(NeutraliseUserPlaceholders(text)) && Confidence(p) == e.confidence
  {
    var info := PolicyMasked(o, text, profile, mode).1;
    var i :| 0 <= i < |info| && EntitiesOf(info)[i] == e;
    EntitiesAreMatches(o, text, profile, mode);
    assert info[i].placeholder in PlaceholdersOf(info);
    if text != "" {
      PolicyMaskedParts(o, text, profile, mode);
      var t := NeutraliseUserPlaceholders(text);
      var ds := PolicyDetections(o, t, profile, mode);
      hide PolicyMasked, PolicyDetections, NeutraliseUserPlaceholders, OfType, Matches;
      assert info == InfoOf(ds);
      var d := InfoEntry(ds, info[i]);
      CertainUnlessName(o, t, profile, mode, d);
    }
  }

  /** A tool argument: a string, or any other JSON value. */
  datatype Value = Text(s: string) | Other(id: int)

  datatype Arg = Arg(key: string, value: Value)

  /** `TrustViolationError`, or the arguments and the keys that were changed. */
  datatype ToolResult = Denied | Args(args: seq<Arg>, deanonymizedKeys: seq<string>)

  /** Some placeholder in the text has a readable row. */
  predicate Restorable(w: Workspace, s: string) {
    exists p :: p in Matches(Wide, s) && p in Readable(w.table, w.key)
  }

  predicate Substituted(policy: ToolPolicy, a: Arg) {
    a.value.Text? && (policy.keys == [] || a.key in policy.keys)
  }

  function RestoredArg(w: Workspace, policy: ToolPolicy, a: Arg): Arg {
    if Substituted(policy, a) then Arg(a.key, Text(ToolRestore(w, a.value.s))) else a
  }

  function RestoredArgs(w: Workspace, policy: ToolPolicy, args: seq<Arg>): seq<Arg> {
    seq(|args|, i requires 0 <= i < |args| => RestoredArg(w, policy, args[i]))
  }

  function ChangedKeys(w: Workspace, policy: ToolPolicy, args: seq<Arg>): seq<string> {
    if args == [] then []
    else
      var a := args[|args| - 1];
      ChangedKeys(w, policy, args[..|args| - 1])
      + if Substituted(policy, a) && Restorable(w, a.value.s) then [a.key] else []
  }

  /** The override, unless there is none or it is empty. */
  function EffectiveMode(policy: ToolPolicy, policyOverride: Option<string>): string {
    if policyOverride.GetOr("") == "" then policy.mode else policyOverride.value
  }

  function ToolOutcome(w: Workspace, policy: ToolPolicy, policyOverride: Option<string>, args: seq<Arg>): ToolResult {
    match EffectiveMode(policy, policyOverride)
    case "forbid" => Denied
    case "forward_masked" => Args(args, [])
    case _ => Args(RestoredArgs(w, policy, args), ChangedKeys(w, policy, args))
  }

  predicate PassedMasked(r: ToolResult, args: seq<Arg>) {
    r == Denied || r == Args(args, [])
  }

  /** Nothing is ever restored exactly under the two modes that say so: every other mode, a
      misspelt one included, restores originals from some workspace. */
  lemma NeverRestoresIff(policy: ToolPolicy, policyOverride: Option<string>)
    ensures var mode := EffectiveMode(policy, policyOverride);
      (forall w, args :: PassedMasked(ToolOutcome(w, policy, policyOverride, args), args))
      <==> mode == "forbid" || mode == "forward_masked"
  {
    hide RestoredArgs, ChangedKeys, EffectiveMode;
    var mode := EffectiveMode(policy, policyOverride);
    if mode != "forbid" && mode != "forward_masked" {
      var w, args := OtherModesRestore(policy);
      assert !PassedMasked(ToolOutcome(w, policy, policyOverride, args), args);
    }
  }

  /** A workspace with one row, and an argument that the policy covers. */
  lemma OtherModesRestore(policy: ToolPolicy) returns (w: Workspace, args: seq<Arg>)
    ensures ChangedKeys(w, policy, args) != []
  {
    var p, key := "<INN_1>", if policy.keys == [] then "" else policy.keys[0];
    w, args := Workspace(map[p := Row("original", "INN", "", "", 0)], 0), [Arg(key, Text(p))];
    assert p in Readable(w.table, w.key);
    OnePlaceholder(w, p);
    hide Restorable, Readable;
    assert args[..0] == [] && Substituted(policy, args[0]);
  }

  lemma OnePlaceholder(w: Workspace, p: string)
    requires p == "<INN_1>" && p in Readable(w.table, w.key)
    ensures Restorable(w, p)
  {
    assert Placeholder("INN", 1) == p;
    PlaceholderCut(Wide, "INN", 1);
    ScanOne(Wide, p, map[]);
  }

  /** An argument that the policy opens: a string, under a listed key or under any key when none
      is listed. */
  ghost predicate Opened(keys: seq<string>, a: Arg) {
    a.value.Text? && (|keys| > 0 ==> exists i | 0 <= i < |keys| :: keys[i] == a.key)
  }

  /** The policy of the tool is its registered one before the default, and a non-empty override
      replaces its mode. */
  lemma ToolModes(w: Workspace, policies: ToolPolicies, tool: string, policyOverride: Option<string>, args: seq<Arg>)
    ensures var policy := if tool in policies.byTool.Keys then policies.byTool[tool] else policies.byDefault;
      var mode := if policyOverride.Some? && |policyOverride.value| > 0 then policyOverride.value else policy.mode;
      var r := ToolOutcome(w, policies.ForTool(tool), policyOverride, args);
      && policies.ForTool(tool) == policy
      && (r == Denied <==> mode == "forbid")
      && (mode == "forward_masked" ==> r == Args(args, []))
      && (mode != "forbid" && mode != "forward_masked" ==>
            r == Args(RestoredArgs(w, policy, args), ChangedKeys(w, policy, args)))
  {}

  /** Argument by argument: what is not opened comes back unchanged, and what is opened with
      every wide placeholder that has a readable row replaced. */
  lemma ToolArguments(w: Workspace, policy: ToolPolicy, args: seq<Arg>, i: nat)
    requires i < |args|
    ensures var out, a := RestoredArgs(w, policy, args), args[i];
      && |out| == |args|
      && (!Opened(policy.keys, a) ==> out[i] == a)
      && (Opened(policy.keys, a) ==>
            out[i] == Arg(a.key, Text(Substitute(Wide, Readable(w.table, w.key), a.value.s))))
  {}

  /** The keys reported are those of the opened arguments with something to restore. */
  lemma {:induction false} ToolKeys(w: Workspace, policy: ToolPolicy, args: seq<Arg>, key: string)
    ensures key in ChangedKeys(w, policy, args) <==> exists i, p ::
      && 0 <= i < |args| && args[i].key == key && Opened(policy.keys, args[i])
      && p in Matches(Wide, args[i].value.s) && p in Readable(w.table, w.key)
  {
    hide Matches, Readable;
    if args != [] {
      var n := |args| - 1;
      var front, a := args[..n], args[n];
      ToolKeys(w, policy, front, key);
      assert forall i | 0 <= i < n :: front[i] == args[i];
      if key in ChangedKeys(w, policy, front) {
        var i, p :| 0 <= i < |front| && front[i].key == key && Opened(policy.keys, front[i])
          && p in Matches(Wide, front[i].value.s) && p in Readable(w.table, w.key);
        assert args[i].key == key && Opened(policy.keys, args[i]) && p in Matches(Wide, args[i].value.s);
      } else if key in ChangedKeys(w, policy, args) {
        var p :| p in Matches(Wide, a.value.s) && p in Readable(w.table, w.key);
        assert args[n].key == key && Opened(policy.keys, args[n]) && p in Matches(Wide, args[n].value.s);
      }
    }
  }

  class Pipeline {
    const world: World
    const toolPolicies: ToolPolicies
    const keyOf: string -> nat
    const disk: string -> Table
    var stores: map<string, MappingStore>

    /** Every open store is its own object, under the key of its workspace. */
    ghost predicate Valid()
      reads this, stores.Values
    {
      && (forall ws | ws in stores :: stores[ws].key == keyOf(ws))
      && (forall a, b | a in stores && b in stores && a != b :: stores[a] != stores[b])
    }

    /** A workspace's state; one that is not open yet is as it is on disk. */
    ghost function View(ws: string): Workspace
      reads this, stores.Values
    {
      if ws in stores then Workspace(stores[ws].table, stores[ws].key) else Workspace(disk(ws), keyOf(ws))
    }

    constructor (world: World, toolPolicies: ToolPolicies, keyOf: string -> nat, disk: string -> Table)
      ensures Valid() && this.world == world && this.toolPolicies == toolPolicies
      ensures forall ws :: View(ws) == Workspace(disk(ws), keyOf(ws))
    {
      this.world := world;
      this.toolPolicies := toolPolicies;
      this.keyOf := keyOf;
      this.disk := disk;
      stores := map[];
    }

    /** `_store`: opens a workspace's store on first use and caches it. */
    method StoreFor(ws: string) returns (s: MappingStore)
      requires Valid()
      modifies this
      ensures Valid() && ws in stores && stores[ws] == s
      ensures forall x | x in old(stores) :: x in stores && stores[x] == old(stores)[x]
      ensures forall x | x in stores && x !in old(stores) :: x == ws && fresh(stores[x])
      ensures forall x :: View(x) == old(View(x))
    {
      if ws in stores {
        s := stores[ws];
      } else {
        s := new MappingStore(disk(ws), keyOf(ws));
        stores := stores[ws := s];
      }
    }

    /** `anonymize`; `None` is the `ValueError` for an unknown profile. */
    method Anonymize(ws: string, text: string, profileName: string, session: string, mode: Mode)
      returns (r: Option<AnonymizeResult>)
      requires Valid()
      modifies this, stores.Values
      ensures Valid()
      ensures var step := Step.Anonymize(ws, text, profileName, session, mode);
        forall x :: View(x) == StepOn(world, x, old(View(x)), step)
      ensures r.None? <==> Profile(profileName).None?
      ensures r.Some? ==>
        var (masked, info) := PolicyMasked(world.detectors, text, Profile(profileName).value, mode);
        r.value == AnonymizeResult(masked, EntitiesOf(info), mode != Full)
    {
      hide PolicyMasked, PutAll, EntitiesOf, StepOn, Profile;
      ghost var step := Step.Anonymize(ws, text, profileName, session, mode);
      var profile := Profile(profileName);
      if profile.None? {
        forall x { AnonymizeStep(world, x, View(x), step); }
        return None;
      }
      var masked, info := MaskWithPolicy(world.detectors, text, profile.value, mode);
      var store := StoreFor(ws);
      ghost var before := View(ws);
      assert before == Workspace(store.table, store.key);
      var entities := PutEntries(world, store, session, info);
      assert View(ws) == PutAll(world, before, session, info);
      assert forall x | x != ws :: View(x) == old(View(x));
      forall x ensures View(x) == StepOn(world, x, old(View(x)), step) {
        AnonymizeStep(world, x, old(View(x)), step);
      }
      return Some(AnonymizeResult(masked, entities, mode != Full));
    }

    /** `restore`: the text, and the wide matches for which no row can be read. */
    method Restore(ws: string, text: string) returns (restored: string, hallucinated: seq<string>)
      requires Valid()
      modifies this
      ensures Valid() && forall x :: View(x) == old(View(x))
      ensures restored == BatchRestore(View(ws), text)
      ensures forall p :: p in hallucinated <==> p in BatchMisses(Readable(View(ws).table, View(ws).key), text)
      ensures forall i, j | 0 <= i < j < |hallucinated| :: hallucinated[i] != hallucinated[j]
    {
      hide Matches;
      var store := StoreFor(ws);
      var placeholders := set p | p in Matches(Wide, text);
      var reverse;
      reverse, hallucinated := LookUpAll(store, placeholders);
      assert reverse == Collected(View(ws), text);
      restored := Unmasked(reverse, text);
    }

    /** `deanonymize_tool_args`, with the policy of the tool or an override. */
    method DeanonymizeToolArgs(ws: string, tool: string, args: seq<Arg>, policyOverride: Option<string>)
      returns (r: ToolResult)
      requires Valid()
      modifies this
      ensures Valid() && forall x :: View(x) == old(View(x))
      ensures r == ToolOutcome(View(ws), toolPolicies.ForTool(tool), policyOverride, args)
    {
      hide ToolRestore, Restorable, RestoredArgs, ChangedKeys;
      var policy := toolPolicies.ForTool(tool);
      var mode := if policyOverride.GetOr("") != "" then policyOverride.value else policy.mode;
      if mode == "forbid" {
        return Denied;
      }
      if mode == "forward_masked" {
        return Args(args, []);
      }
      var store := StoreFor(ws);
      var out, keys := SubstituteArgs(store, policy, args);
      return Args(out, keys);
    }

    /** The purge endpoint, on the store of one workspace. */
    method Purge(ws: string, scope: Scope) returns (r: PurgeResult)
      requires Valid()
      modifies this, stores.Values
      ensures Valid()
      ensures forall x :: View(x) == StepOn(world, x, old(View(x)), PurgeRows(ws, scope))
      ensures r.ValueError? <==>
        && scope.scope != "all"
        && !(scope.scope == "session" && scope.session.Some?)
        && !(scope.scope == "subject" && scope.subject.Some?)
      ensures r.Deleted? ==> |View(ws).table| + r.count == |old(View(ws)).table|
      ensures var before, after := old(View(ws)).table, View(ws).table;
        && (r.ValueError? ==> after == before)
        && (r.Deleted? ==> forall p :: p in after <==>
              && p in before
              && scope.scope != "all"
              && !(scope.scope == "session" && scope.session == Some(before[p].session))
              && !(scope.scope == "subject" && scope.subject == Some(before[p].subject)))
        && (forall p | p in after :: p in before && after[p] == before[p])
    {
      var store := StoreFor(ws);
      r := store.Purge(scope);
    }
  }

  lemma AnonymizeStep(world: World, x: string, w: Workspace, step: Step)
    requires step.Anonymize?
    ensures StepOn(world, x, w, step) ==
      if x != step.ws || Profile(step.profile).None? then w
      else
        var info := PolicyMasked(world.detectors, step.text, Profile(step.profile).value, step.mode).1;
        PutAll(world, w, step.session, info)
  {}

  /** The storing loop of `anonymize`. */
  method PutEntries(world: World, store: MappingStore, session: string, info: seq<Info>) returns (entities: seq<Entity>)
    modifies store
    ensures Workspace(store.table, store.key) == PutAll(world, Workspace(old(store.table), store.key), session, info)
    ensures entities == EntitiesOf(info)
  {
    entities := [];
    ghost var before := Workspace(store.table, store.key);
    assert info[..0] == [];
    for i := 0 to |info|
      invariant Workspace(store.table, store.key) == PutAll(world, before, session, info[..i])
      invariant entities == EntitiesOf(info[..i])
    {
      var e := info[i];
      assert info[..i + 1][..i] == info[..i];
      store.Put(e.placeholder, e.original, e.category, session, world.hash(e.original));
      entities := entities + [Entity(e.placeholder, e.category, e.confidence)];
    }
    assert info[..|info|] == info;
  }

  /** The collecting loop of `restore`, in whatever order the set yields its members. */
  method LookUpAll(store: MappingStore, placeholders: set<string>)
    returns (reverse: map<string, string>, hallucinated: seq<string>)
    ensures var readable := Readable(store.table, store.key);
      reverse == map p | p in readable && p in placeholders :: readable[p]
    ensures forall p :: p in hallucinated <==> p in placeholders && p !in Readable(store.table, store.key)
    ensures forall i, j | 0 <= i < j < |hallucinated| :: hallucinated[i] != hallucinated[j]
  {
    ghost var m := Readable(store.table, store.key);
    var todo := placeholders;
    reverse, hallucinated := map[], [];
    while todo != {}
      invariant todo <= placeholders
      invariant forall p :: p in reverse <==> p in placeholders && p !in todo && p in m
      invariant forall p | p in reverse :: reverse[p] == m[p]
      invariant forall p :: p in hallucinated <==> p in placeholders && p !in todo && p !in m
      invariant forall i, j | 0 <= i < j < |hallucinated| :: hallucinated[i] != hallucinated[j]
      decreases todo
    {
      var p :| p in todo;
      var row := store.Get(p);
      ReadIsReadable(store.table, store.key, p);
      if row.Found? {
        reverse := reverse[p := row.original];
      } else {
        hallucinated := hallucinated + [p];
      }
      todo := todo - {p};
    }
  }

  /** The loop of `deanonymize_tool_args` over the arguments. */
  method SubstituteArgs(store: MappingStore, policy: ToolPolicy, args: seq<Arg>)
    returns (out: seq<Arg>, keys: seq<string>)
    ensures out == RestoredArgs(Workspace(store.table, store.key), policy, args)
    ensures keys == ChangedKeys(Workspace(store.table, store.key), policy, args)
  {
    hide ToolRestore, Restorable;
    ghost var w := Workspace(store.table, store.key);
    out, keys := [], [];
    assert args[..0] == [];
    for i := 0 to |args|
      invariant out == RestoredArgs(w, policy, args[..i])
      invariant keys == ChangedKeys(w, policy, args[..i])
    {
      var a := args[i];
      assert args[..i + 1][..i] == args[..i];
      assert RestoredArgs(w, policy, args[..i + 1]) == RestoredArgs(w, policy, args[..i]) + [RestoredArg(w, policy, a)];
      if a.value.Text? && (policy.keys == [] || a.key in policy.keys) {
        var newValue, changed := SubstitutePlaceholders(a.value.s, store);
        if changed {
          keys := keys + [a.key];
        }
        out := out + [Arg(a.key, Text(newValue))];
      } else {
        out := out + [a];
      }
    }
    assert args[..|args|] == args;
  }

  /** `_substitute_placeholders`: one pass over the wide matches, with a lookup at each. */
  method SubstitutePlaceholders(s: string, store: MappingStore) returns (out: string, changed: bool)
    ensures out == ToolRestore(Workspace(store.table, store.key), s)
    ensures changed <==> Restorable(Workspace(store.table, store.key), s)
  {
    hide MatchLength, Substitute, IsPlaceholder, Matches;
    ghost var m := Readable(store.table, store.key);
    var rest := s;
    out, changed := "", false;
    while rest != ""
      invariant out + Substitute(Wide, m, rest) == Substitute(Wide, m, s)
      invariant (changed || exists p :: p in Matches(Wide, rest) && p in m)
            <==> exists p :: p in Matches(Wide, s) && p in m
      decreases |rest|
    {
      var n := MatchLength(Wide, rest);
      SubstituteStep(Wide, m, rest);
      MatchesStep(Wide, rest);
      if n > 0 {
        var ph := rest[..n];
        var row := store.Get(ph);
        ReadIsReadable(store.table, store.key, ph);
        if row.Found? {
          changed := true;
          out := out + row.original;
        } else {
          out := out + ph;
        }
        Associative(out[..|out| - |Entry(m, ph)|], Entry(m, ph), Substitute(Wide, m, rest[n..]));
        assert out == out[..|out| - |Entry(m, ph)|] + Entry(m, ph);
        rest := rest[n..];
      } else {
        Associative(out, [rest[0]], Substitute(Wide, m, rest[1..]));
        out, rest := out + [rest[0]], rest[1..];
      }
    }
    EmptyText(m);
  }

  lemma EmptyText(m: map<string, string>)
    ensures Substitute(Wide, m, "") == "" && Matches(Wide, "") == []
  {}
}
