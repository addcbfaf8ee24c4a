/** Masking chat messages (`_mask_content_block`, `mask_messages` and `_mask_tool_call` of
    `pii/masker.py`): one mapping is threaded through nested content, and unmasking every
    masked leaf with the final mapping gives the messages back. */
module Messages {
  import opened Placeholders
  import opened Neutralise
  import opened Detection
  import opened Mappings
  import opened Masking
  import opened RoundTrip

  /** A JSON value; `Atom` stands for numbers, booleans and null. A dict keeps its order. */
  datatype Json =
    | Str(s: string)
    | Dict(fields: seq<Field>)
    | List(items: seq<Json>)
    | Atom(id: int)

  datatype Field = Field(key: string, value: Json)

  /** No key twice in one dict, as Python guarantees. */
  predicate DistinctKeys(fields: seq<Field>) {
    forall i, j | 0 <= i < j < |fields| :: fields[i].key != fields[j].key
  }

  /** Which code looks at a value; `Copy` is where none does. */
  datatype Place = MessageList | Message | Block | ToolCalls | ToolCall | Function | Copy

  function ItemPlace(p: Place): Place {
    match p
    case Block => Block
    case MessageList => Message
    case ToolCalls => ToolCall
    case _ => Copy
  }

  function FieldPlace(p: Place, f: Field): Place {
    match p
    case Block =>
      if (f.key == "text" && f.value.Str?) || (f.key == "content" && !f.value.Atom?) then Block else Copy
    case Message =>
      if f.key == "content" then Block
      else if f.key == "tool_calls" && f.value.List? then ToolCalls
      else Copy
    case ToolCall => if f.key == "function" && f.value.Dict? then Function else Copy
    case Function => if f.key == "arguments" && f.value.Str? then Block else Copy
    case _ => Copy
  }

  // ---------------------------------------------- masking as a function of the mapping

  ghost function Mask(o: Detectors, m: Mapping, p: Place, b: Json): (Mapping, Json)
    decreases b, 1
  {
    if p == Copy then (m, b)
    else
      match b
      case Str(s) => if p == Block then (Masked(o, m, s).0, Str(Masked(o, m, s).1)) else (m, b)
      case Dict(fields) => var r := MaskFields(o, m, p, fields); (r.0, Dict(r.1))
      case List(items) => var r := MaskItems(o, m, ItemPlace(p), items); (r.0, List(r.1))
      case Atom(_) => (m, b)
  }

  ghost function MaskFields(o: Detectors, m: Mapping, p: Place, fields: seq<Field>): (r: (Mapping, seq<Field>))
    ensures |r.1| == |fields|
    decreases fields, 0
  {
    if fields == [] then (m, [])
    else
      var front := MaskFields(o, m, p, fields[..|fields| - 1]);
      var f := fields[|fields| - 1];
      var last := Mask(o, front.0, FieldPlace(p, f), f.value);
      (last.0, front.1 + [Field(f.key, last.1)])
  }

  ghost function MaskItems(o: Detectors, m: Mapping, p: Place, items: seq<Json>): (r: (Mapping, seq<Json>))
    ensures |r.1| == |items|
    decreases items, 0
  {
    if items == [] then (m, [])
    else
      var front := MaskItems(o, m, p, items[..|items| - 1]);
      var last := Mask(o, front.0, p, items[|items| - 1]);
      (last.0, front.1 + [last.1])
  }

  /** Applies `f` to the leaves that masking acts on, and leaves all else alone. */
  ghost function OnLeaves(f: string -> string, p: Place, b: Json): Json
    decreases b, 1
  {
    if p == Copy then b
    else
      match b
      case Str(s) => if p == Block then Str(f(s)) else b
      case Dict(fields) => Dict(OnFields(f, p, fields))
      case List(items) => List(OnItems(f, ItemPlace(p), items))
      case Atom(_) => b
  }

  ghost function OnFields(f: string -> string, p: Place, fields: seq<Field>): seq<Field>
    decreases fields, 0
  {
    if fields == [] then []
    else
      var x := fields[|fields| - 1];
      OnFields(f, p, fields[..|fields| - 1]) + [Field(x.key, OnLeaves(f, FieldPlace(p, x), x.value))]
  }

  ghost function OnItems(f: string -> string, p: Place, items: seq<Json>): seq<Json>
    decreases items, 0
  {
    if items == [] then []
    else OnItems(f, p, items[..|items| - 1]) + [OnLeaves(f, p, items[|items| - 1])]
  }

  /** The texts of those leaves, in the order masking meets them. */
  ghost function Leaves(p: Place, b: Json): seq<string>
    decreases b, 1
  {
    if p == Copy then []
    else
      match b
      case Str(s) => if p == Block then [s] else []
      case Dict(fields) => LeavesOfFields(p, fields)
      case List(items) => LeavesOfItems(ItemPlace(p), items)
      case Atom(_) => []
  }

  ghost function LeavesOfFields(p: Place, fields: seq<Field>): seq<string>
    decreases fields, 0
  {
    if fields == [] then []
    else
      var x := fields[|fields| - 1];
      LeavesOfFields(p, fields[..|fields| - 1]) + Leaves(FieldPlace(p, x), x.value)
  }

  ghost function LeavesOfItems(p: Place, items: seq<Json>): seq<string>
    decreases items, 0
  {
    if items == [] then []
    else LeavesOfItems(p, items[..|items| - 1]) + Leaves(p, items[|items| - 1])
  }

  // --------------------------------------------------------------------------- the methods

  method MaskContentBlock(o: Detectors, block: Json, mapping: PiiMapping) returns (r: Json)
    modifies mapping
    ensures (mapping.Contents(), r) == Mask(o, old(mapping.Contents()), Block, block)
    decreases block
  {
    hide Masked;
    ghost var start := mapping.Contents();
    match block
    case Str(s) =>
      var masked := MaskText(o, s, mapping);
      r := Str(masked);
    case Dict(fields) =>
      var out: seq<Field> := [];
      assert fields[..0] == [];
      for i := 0 to |fields|
        invariant (mapping.Contents(), out) == MaskFields(o, start, Block, fields[..i])
      {
        var f := fields[i];
        assert fields[..i + 1][..i] == fields[..i];
        var v := f.value;
        if f.key == "text" && f.value.Str? {
          var masked := MaskText(o, f.value.s, mapping);
          v := Str(masked);
        } else if f.key == "content" && !f.value.Atom? {
          v := MaskContentBlock(o, f.value, mapping);
        }
        out := out + [Field(f.key, v)];
      }
      assert fields[..|fields|] == fields;
      r := Dict(out);
    case List(items) =>
      var out: seq<Json> := [];
      assert items[..0] == [];
      for i := 0 to |items|
        invariant (mapping.Contents(), out) == MaskItems(o, start, Block, items[..i])
      {
        assert items[..i + 1][..i] == items[..i];
        var v := MaskContentBlock(o, items[i], mapping);
        out := out + [v];
      }
      assert items[..|items|] == items;
      r := List(out);
    case Atom(_) =>
      r := block;
  }

  /** Position of the field with this key, or the number of fields. */
  function FieldIndex(fields: seq<Field>, key: string): (i: nat)
    ensures i <= |fields|
    ensures forall j | 0 <= j < i :: fields[j].key != key
    ensures i < |fields| ==> fields[i].key == key
  {
    if fields == [] || fields[0].key == key then 0 else 1 + FieldIndex(fields[1..], key)
  }

  /** Fields that nothing looks at are copied. */
  lemma {:induction false} FieldsCopied(o: Detectors, m: Mapping, p: Place, fields: seq<Field>)
    requires forall i | 0 <= i < |fields| :: FieldPlace(p, fields[i]) == Copy
    ensures MaskFields(o, m, p, fields) == (m, fields)
  {
    if fields != [] {
      var n := |fields| - 1;
      FieldsCopied(o, m, p, fields[..n]);
      assert fields == fields[..n] + [Field(fields[n].key, fields[n].value)];
    }
  }

  lemma {:induction false} ItemsCopied(o: Detectors, m: Mapping, items: seq<Json>)
    ensures MaskItems(o, m, Copy, items) == (m, items)
  {
    if items != [] {
      var n := |items| - 1;
      ItemsCopied(o, m, items[..n]);
      assert items == items[..n] + [items[n]];
    }
  }

  /** Only one field is looked at: masking changes that one. */
  lemma {:induction false} OneFieldMasked(o: Detectors, m: Mapping, p: Place, fields: seq<Field>, i: nat)
    requires i < |fields|
    requires forall j | 0 <= j < |fields| && j != i :: FieldPlace(p, fields[j]) == Copy
    ensures var last := Mask(o, m, FieldPlace(p, fields[i]), fields[i].value);
      MaskFields(o, m, p, fields) == (last.0, fields[i := Field(fields[i].key, last.1)])
  {
    hide Mask;
    var n := |fields| - 1;
    var f := fields[n];
    if i == n {
      FieldsCopied(o, m, p, fields[..n]);
      var r := Mask(o, m, FieldPlace(p, f), f.value);
      assert fields[n := Field(f.key, r.1)] == fields[..n] + [Field(f.key, r.1)];
    } else {
      OneFieldMasked(o, m, p, fields[..n], i);
      var r := Mask(o, m, FieldPlace(p, fields[i]), fields[i].value);
      assert Mask(o, r.0, Copy, f.value) == (r.0, f.value) by { CopyMasksNothing(o, r.0, f.value); }
      assert Field(f.key, f.value) == f;
      assert fields[i := Field(fields[i].key, r.1)] == fields[..n][i := Field(fields[i].key, r.1)] + [f];
    }
  }

  lemma CopyMasksNothing(o: Detectors, m: Mapping, b: Json)
    ensures Mask(o, m, Copy, b) == (m, b)
  {}

  method MaskToolCall(o: Detectors, tc: Json, mapping: PiiMapping) returns (r: Json)
    requires tc.Dict? ==> DistinctKeys(tc.fields)
    requires tc.Dict? ==> forall f | f in tc.fields && f.value.Dict? :: DistinctKeys(f.value.fields)
    modifies mapping
    ensures (mapping.Contents(), r) == Mask(o, old(mapping.Contents()), ToolCall, tc)
  {
    hide Masked;
    ghost var start := mapping.Contents();
    if !tc.Dict? {
      if tc.List? { ItemsCopied(o, start, tc.items); }
      return tc;
    }
    var i := FieldIndex(tc.fields, "function");
    if i == |tc.fields| || !tc.fields[i].value.Dict? {
      FieldsCopied(o, start, ToolCall, tc.fields);
      return tc;
    }
    OneFieldMasked(o, start, ToolCall, tc.fields, i);
    assert tc.fields[i] in tc.fields;
    var fn := tc.fields[i].value.fields;
    var j := FieldIndex(fn, "arguments");
    if j == |fn| || !fn[j].value.Str? {
      FieldsCopied(o, start, Function, fn);
      assert Mask(o, start, Function, Dict(fn)) == (start, Dict(fn));
      assert tc.fields[i := Field("function", Dict(fn))] == tc.fields;
      return tc;
    }
    OneFieldMasked(o, start, Function, fn, j);
    var args := MaskText(o, fn[j].value.s, mapping);
    var newFn := fn[j := Field("arguments", Str(args))];
    return Dict(tc.fields[i := Field("function", Dict(newFn))]);
  }

  ghost predicate ToolCallDicts(tcs: seq<Json>) {
    forall tc | tc in tcs && tc.Dict? ::
      DistinctKeys(tc.fields) && forall f | f in tc.fields && f.value.Dict? :: DistinctKeys(f.value.fields)
  }

  ghost predicate MessageDicts(messages: seq<Json>) {
    forall msg | msg in messages ::
      msg.Dict? && forall f | f in msg.fields && f.value.List? :: ToolCallDicts(f.value.items)
  }

  /** The tool calls of a message, masked one after another. */
  method MaskEachToolCall(o: Detectors, tcs: seq<Json>, mapping: PiiMapping) returns (out: seq<Json>)
    requires ToolCallDicts(tcs)
    modifies mapping
    ensures (mapping.Contents(), out) == MaskItems(o, old(mapping.Contents()), ToolCall, tcs)
  {
    hide Mask;
    ghost var start := mapping.Contents();
    out := [];
    assert tcs[..0] == [];
    for i := 0 to |tcs|
      invariant (mapping.Contents(), out) == MaskItems(o, start, ToolCall, tcs[..i])
    {
      assert tcs[..i + 1][..i] == tcs[..i];
      assert tcs[i] in tcs;
      var tc := MaskToolCall(o, tcs[i], mapping);
      out := out + [tc];
    }
    assert tcs[..|tcs|] == tcs;
  }

  method MaskOneMessage(o: Detectors, msg: seq<Field>, mapping: PiiMapping) returns (out: seq<Field>)
    requires forall f | f in msg && f.value.List? :: ToolCallDicts(f.value.items)
    modifies mapping
    ensures (mapping.Contents(), out) == MaskFields(o, old(mapping.Contents()), Message, msg)
  {
    ghost var start := mapping.Contents();
    out := [];
    assert msg[..0] == [];
    for i := 0 to |msg|
      invariant (mapping.Contents(), out) == MaskFields(o, start, Message, msg[..i])
    {
      var f := msg[i];
      assert msg[..i + 1][..i] == msg[..i];
      assert f in msg;
      var v := f.value;
      if f.key == "content" {
        v := MaskContentBlock(o, f.value, mapping);
      } else if f.key == "tool_calls" && f.value.List? {
        var tcs := MaskEachToolCall(o, f.value.items, mapping);
        v := List(tcs);
      }
      out := out + [Field(f.key, v)];
    }
    assert msg[..|msg|] == msg;
  }

  method MaskMessages(o: Detectors, messages: seq<Json>, mapping: PiiMapping) returns (out: seq<Json>)
    requires MessageDicts(messages)
    modifies mapping
    ensures (mapping.Contents(), List(out)) == Mask(o, old(mapping.Contents()), MessageList, List(messages))
  {
    ghost var start := mapping.Contents();
    out := [];
    assert messages[..0] == [];
    for i := 0 to |messages|
      invariant (mapping.Contents(), out) == MaskItems(o, start, Message, messages[..i])
    {
      assert messages[..i + 1][..i] == messages[..i];
      assert messages[i] in messages;
      var newMsg := MaskOneMessage(o, messages[i].fields, mapping);
      out := out + [Dict(newMsg)];
    }
    assert messages[..|messages|] == messages;
  }

  // ------------------------------------------------------------------------ the round trip

  lemma {:induction false} MaskAllAppend(o: Detectors, m: Mapping, a: seq<string>, b: seq<string>)
    ensures MaskAll(o, m, a + b).0 == MaskAll(o, MaskAll(o, m, a).0, b).0
  {
    if b == [] {
      assert a + b == a;
    } else {
      hide Masked;
      var n := |b| - 1;
      assert (a + b)[..|a| + n] == a + b[..n];
      MaskAllAppend(o, m, a, b[..n]);
    }
  }

  /** Masking a tree masks its leaves one after another, and never drops an entry. */
  lemma {:induction false} MaskIsMaskAll(o: Detectors, m: Mapping, p: Place, b: Json)
    requires Grown(m)
    ensures Mask(o, m, p, b).0 == MaskAll(o, m, Leaves(p, b)).0
    ensures Grown(Mask(o, m, p, b).0) && Extends(m, Mask(o, m, p, b).0)
    decreases b, 1
  {
    hide Grown, Extends, Masked;
    ExtendsReflexive(m);
    if p != Copy {
      match b
      case Str(s) =>
        assert [s][..0] == [];
        MaskedGrown(o, m, s);
      case Dict(fields) => FieldsAreMaskAll(o, m, p, fields);
      case List(items) => ItemsAreMaskAll(o, m, ItemPlace(p), items);
      case Atom(_) =>
    }
  }

  lemma {:induction false} FieldsAreMaskAll(o: Detectors, m: Mapping, p: Place, fields: seq<Field>)
    requires Grown(m)
    ensures MaskFields(o, m, p, fields).0 == MaskAll(o, m, LeavesOfFields(p, fields)).0
    ensures Grown(MaskFields(o, m, p, fields).0) && Extends(m, MaskFields(o, m, p, fields).0)
    decreases fields, 0
  {
    hide Grown, Extends, Masked, Mask, Leaves;
    ExtendsReflexive(m);
    if fields != [] {
      var n := |fields| - 1;
      var f, front := fields[n], MaskFields(o, m, p, fields[..n]).0;
      FieldsAreMaskAll(o, m, p, fields[..n]);
      MaskIsMaskAll(o, front, FieldPlace(p, f), f.value);
      MaskAllAppend(o, m, LeavesOfFields(p, fields[..n]), Leaves(FieldPlace(p, f), f.value));
      ExtendsTransitive(m, front, MaskFields(o, m, p, fields).0);
    }
  }

  lemma {:induction false} ItemsAreMaskAll(o: Detectors, m: Mapping, p: Place, items: seq<Json>)
    requires Grown(m)
    ensures MaskItems(o, m, p, items).0 == MaskAll(o, m, LeavesOfItems(p, items)).0
    ensures Grown(MaskItems(o, m, p, items).0) && Extends(m, MaskItems(o, m, p, items).0)
    decreases items, 0
  {
    hide Grown, Extends, Masked, Mask, Leaves;
    ExtendsReflexive(m);
    if items != [] {
      var n := |items| - 1;
      var front := MaskItems(o, m, p, items[..n]).0;
      ItemsAreMaskAll(o, m, p, items[..n]);
      MaskIsMaskAll(o, front, p, items[n]);
      MaskAllAppend(o, m, LeavesOfItems(p, items[..n]), Leaves(p, items[n]));
      ExtendsTransitive(m, front, MaskItems(o, m, p, items).0);
    }
  }

  /** `u` undoes masking of every text that `final` still covers. */
  ghost predicate Undoes(o: Detectors, final: Mapping, u: string -> string, v: string -> string, leaves: seq<string>) {
    forall m: Mapping, s: string | Grown(m) && s in leaves && Extends(Masked(o, m, s).0, final) ::
      u(Masked(o, m, s).1) == v(s)
  }

  /** What undoes masking leaf by leaf undoes it on the whole tree. */
  lemma {:induction false} UndoesTree(o: Detectors, m: Mapping, p: Place, b: Json, final: Mapping,
                                      u: string -> string, v: string -> string)
    requires Grown(m) && Extends(Mask(o, m, p, b).0, final) && Undoes(o, final, u, v, Leaves(p, b))
    ensures OnLeaves(u, p, Mask(o, m, p, b).1) == OnLeaves(v, p, b)
    decreases b, 1
  {
    hide Grown, Extends, Masked;
    if p != Copy {
      match b
      case Str(s) => if p == Block { assert s in Leaves(p, b); }
      case Dict(fields) => UndoesFields(o, m, p, fields, final, u, v);
      case List(items) => UndoesItems(o, m, ItemPlace(p), items, final, u, v);
      case Atom(_) =>
    }
  }

  /** Masking keeps the kind of a value, so the same code looks at the masked one. */
  lemma SamePlace(o: Detectors, m: Mapping, p: Place, f: Field)
    ensures FieldPlace(p, Field(f.key, Mask(o, m, FieldPlace(p, f), f.value).1)) == FieldPlace(p, f)
  {}

  lemma {:induction false} UndoesFields(o: Detectors, m: Mapping, p: Place, fields: seq<Field>, final: Mapping,
                                        u: string -> string, v: string -> string)
    requires Grown(m) && Extends(MaskFields(o, m, p, fields).0, final)
    requires Undoes(o, final, u, v, LeavesOfFields(p, fields))
    ensures OnFields(u, p, MaskFields(o, m, p, fields).1) == OnFields(v, p, fields)
    decreases fields, 0
  {
    hide Grown, Extends, Masked, Mask, Leaves, OnLeaves, FieldPlace;
    if fields != [] {
      var n := |fields| - 1;
      var f, front := fields[n], MaskFields(o, m, p, fields[..n]);
      var last := Mask(o, front.0, FieldPlace(p, f), f.value);
      FieldsAreMaskAll(o, m, p, fields[..n]);
      MaskIsMaskAll(o, front.0, FieldPlace(p, f), f.value);
      ExtendsTransitive(front.0, last.0, final);
      UndoesFields(o, m, p, fields[..n], final, u, v);
      UndoesTree(o, front.0, FieldPlace(p, f), f.value, final, u, v);
      SamePlace(o, front.0, p, f);
      assert MaskFields(o, m, p, fields).1[..n] == front.1;
    }
  }

  lemma {:induction false} UndoesItems(o: Detectors, m: Mapping, p: Place, items: seq<Json>, final: Mapping,
                                       u: string -> string, v: string -> string)
    requires Grown(m) && Extends(MaskItems(o, m, p, items).0, final)
    requires Undoes(o, final, u, v, LeavesOfItems(p, items))
    ensures OnItems(u, p, MaskItems(o, m, p, items).1) == OnItems(v, p, items)
    decreases items, 0
  {
    hide Grown, Extends, Masked, Mask, Leaves, OnLeaves;
    if items != [] {
      var n := |items| - 1;
      var front := MaskItems(o, m, p, items[..n]);
      var last := Mask(o, front.0, p, items[n]);
      ItemsAreMaskAll(o, m, p, items[..n]);
      MaskIsMaskAll(o, front.0, p, items[n]);
      ExtendsTransitive(front.0, last.0, final);
      UndoesItems(o, m, p, items[..n], final, u, v);
      UndoesTree(o, front.0, p, items[n], final, u, v);
      assert MaskItems(o, m, p, items).1[..n] == front.1;
    }
  }

  /** Masking any messages through a fresh mapping, then unmasking every masked leaf with the
      mapping that results: each leaf comes back neutralised, with every detected span showing
      the surface that was recorded first for its key anywhere in the messages. */
  lemma MessagesRoundTrip(o: Detectors, p: Place, b: Json)
    ensures var r := Mask(o, EMPTY, p, b);
      && OnLeaves(s => Unmasked(r.0.reverse, s), p, r.1) == OnLeaves(s => RestoredText(o, r.0, s), p, b)
      && forall key :: (key in r.0.forward <==> FirstSurface(AllDetections(o, Leaves(p, b)), key).Some?)
           && (key in r.0.forward ==>
                 RestoredSurface(r.0, key) == FirstSurface(AllDetections(o, Leaves(p, b)), key).value)
  {
    var r := Mask(o, EMPTY, p, b);
    EmptyIsGrown();
    MaskIsMaskAll(o, EMPTY, p, b);
    ExtendsReflexive(r.0);
    var u, v := s => Unmasked(r.0.reverse, s), s => RestoredText(o, r.0, s);
    assert Undoes(o, r.0, u, v, Leaves(p, b)) by {
      hide Grown, Extends, Masked, Unmasked, RestoredText;
      forall m: Mapping, s: string | Grown(m) && Extends(Masked(o, m, s).0, r.0) ensures u(Masked(o, m, s).1) == v(s) {
        UnmaskMasked(o, m, s, r.0);
      }
    }
    UndoesTree(o, EMPTY, p, b, r.0, u, v);
    hide *;
    forall key {
      FinalMapping(o, Leaves(p, b), key);
    }
  }

  ghost predicate LiteralTexts(o: Detectors, texts: seq<string>) {
    forall s, d | s in texts && d in DetectionsIn(o, s) :: CacheKey(d) == d.surface
  }

  lemma {:induction false} LiteralAllDetections(o: Detectors, texts: seq<string>)
    requires LiteralTexts(o, texts)
    ensures forall d | d in AllDetections(o, texts) :: d.category in NARROW_TYPES && CacheKey(d) == d.surface
  {
    hide DetectionsIn, CacheKey;
    if texts != [] {
      var n := |texts| - 1;
      LiteralAllDetections(o, texts[..n]);
      DetectionsInNarrow(o, texts[n]);
      assert texts[n] in texts;
    }
  }

  /** When detection is by regular expressions alone, the same tree comes back with each leaf
      neutralised, and nothing else changed. */
  lemma MessagesRoundTripLiteral(o: Detectors, p: Place, b: Json)
    requires LiteralTexts(o, Leaves(p, b))
    ensures var r := Mask(o, EMPTY, p, b);
      OnLeaves(s => Unmasked(r.0.reverse, s), p, r.1) == OnLeaves(s => NeutraliseUserPlaceholders(s), p, b)
  {
    var r := Mask(o, EMPTY, p, b);
    var leaves := Leaves(p, b);
    EmptyIsGrown();
    MaskIsMaskAll(o, EMPTY, p, b);
    MaskAllIsIssueAll(o, EMPTY, leaves);
    LiteralAllDetections(o, leaves);
    IssueAllKeepsLiteral(EMPTY, AllDetections(o, leaves));
    ExtendsReflexive(r.0);
    var u, v := s => Unmasked(r.0.reverse, s), s => NeutraliseUserPlaceholders(s);
    assert Undoes(o, r.0, u, v, leaves) by {
      hide Grown, Extends, Masked, Unmasked, NeutraliseUserPlaceholders, Literal;
      forall m: Mapping, s: string | Grown(m) && s in leaves && Extends(Masked(o, m, s).0, r.0)
        ensures u(Masked(o, m, s).1) == v(s)
      {
        LiteralRoundTrip(o, m, s, r.0);
      }
    }
    UndoesTree(o, EMPTY, p, b, r.0, u, v);
  }
}
