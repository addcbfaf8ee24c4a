/** Which strings of nested messages are masked, by their position alone: message contents with
    all their nested content and text, and the arguments of tool calls
    (`mask_messages` of `pii/masker.py`). */
module MessagePaths {
  import opened Text
  import opened Detection
  import opened Mappings
  import opened Masking
  import opened Messages

  /** One step into a value: an item of a list, or a field of a dict with its key. */
  datatype Sel = Item(i: nat) | Member(i: nat, key: string)

  function Get(b: Json, path: seq<Sel>): Option<Json>
    decreases |path|
  {
    if path == [] then Some(b)
    else
      match path[0]
      case Item(i) => if b.List? && i < |b.items| then Get(b.items[i], path[1..]) else None
      case Member(i, key) =>
        if b.Dict? && i < |b.fields| && b.fields[i].key == key then Get(b.fields[i].value, path[1..]) else None
  }

  predicate IsMember(s: Sel, key: string) {
    s.Member? && s.key == key
  }

  /** Inside a content block: through items and `content` fields, and at last maybe `text`. */
  predicate BlockPath(path: seq<Sel>) {
    forall j | 0 <= j < |path| ::
      path[j].Item? || IsMember(path[j], "content") || (j == |path| - 1 && IsMember(path[j], "text"))
  }

  /** In a list of messages: the content of a message, or the arguments of a tool call. */
  predicate MaskedPath(path: seq<Sel>) {
    && |path| >= 2 && path[0].Item?
    && ((IsMember(path[1], "content") && BlockPath(path[2..]))
        || (|path| == 5 && IsMember(path[1], "tool_calls") && path[2].Item?
            && IsMember(path[3], "function") && IsMember(path[4], "arguments")))
  }

  // ------------------------------------------------------------------------- item by item

  lemma {:induction false} ItemMasked(o: Detectors, m: Mapping, p: Place, items: seq<Json>, i: nat)
    returns (before: Mapping)
    requires Grown(m) && i < |items|
    ensures Grown(before) && Extends(m, before)
    ensures MaskItems(o, m, p, items).1[i] == Mask(o, before, p, items[i]).1
    ensures Extends(Mask(o, before, p, items[i]).0, MaskItems(o, m, p, items).0)
  {
    hide Grown, Extends, Mask;
    var n := |items| - 1;
    var front := MaskItems(o, m, p, items[..n]).0;
    ItemsAreMaskAll(o, m, p, items[..n]);
    MaskIsMaskAll(o, front, p, items[n]);
    if i == n {
      before := front;
      ExtendsReflexive(Mask(o, front, p, items[n]).0);
    } else {
      before := ItemMasked(o, m, p, items[..n], i);
      ExtendsTransitive(Mask(o, before, p, items[i]).0, front, Mask(o, front, p, items[n]).0);
    }
  }

  lemma {:induction false} FieldMasked(o: Detectors, m: Mapping, p: Place, fields: seq<Field>, i: nat)
    returns (before: Mapping)
    requires Grown(m) && i < |fields|
    ensures Grown(before) && Extends(m, before)
    ensures var r, last := MaskFields(o, m, p, fields), Mask(o, before, FieldPlace(p, fields[i]), fields[i].value);
      r.1[i] == Field(fields[i].key, last.1) && Extends(last.0, r.0)
  {
    hide Grown, Extends, Mask;
    var n := |fields| - 1;
    var front := MaskFields(o, m, p, fields[..n]).0;
    FieldsAreMaskAll(o, m, p, fields[..n]);
    MaskIsMaskAll(o, front, FieldPlace(p, fields[n]), fields[n].value);
    if i == n {
      before := front;
      ExtendsReflexive(Mask(o, front, FieldPlace(p, fields[n]), fields[n].value).0);
    } else {
      before := FieldMasked(o, m, p, fields[..n], i);
      ExtendsTransitive(Mask(o, before, FieldPlace(p, fields[i]), fields[i].value).0, front,
                        Mask(o, front, FieldPlace(p, fields[n]), fields[n].value).0);
    }
  }

  // ------------------------------------------------------------------- every position

  /** What the strings below a place look like that masking acts on. */
  predicate Reaches(p: Place, path: seq<Sel>) {
    match p
    case MessageList => MaskedPath(path)
    case Message =>
      && |path| >= 1
      && ((IsMember(path[0], "content") && BlockPath(path[1..]))
          || (|path| == 4 && IsMember(path[0], "tool_calls") && path[1].Item?
              && IsMember(path[2], "function") && IsMember(path[3], "arguments")))
    case Block => BlockPath(path)
    case ToolCalls => |path| == 3 && path[0].Item? && IsMember(path[1], "function") && IsMember(path[2], "arguments")
    case ToolCall => |path| == 2 && IsMember(path[0], "function") && IsMember(path[1], "arguments")
    case Function => |path| == 1 && IsMember(path[0], "arguments")
    case Copy => false
  }

  lemma ReachesItem(p: Place, path: seq<Sel>)
    requires path != [] && path[0].Item?
    ensures Reaches(p, path) <==> Reaches(ItemPlace(p), path[1..])
  {
    var rest := path[1..];
    assert forall j | 0 <= j < |rest| :: rest[j] == path[j + 1];
    assert |path| >= 2 ==> rest[1..] == path[2..];
    assert |path| >= 3 ==> rest[1..][1..] == path[3..];
    if p == Block {
      assert forall j | 0 <= j < |path| :: j == 0 || path[j] == rest[j - 1];
    }
  }

  /** The same for fields, as far as a string can be there at all. */
  lemma ReachesMember(p: Place, f: Field, path: seq<Sel>)
    requires path != [] && path[0].Member? && path[0].key == f.key
    requires Get(f.value, path[1..]).Some? && Get(f.value, path[1..]).value.Str?
    ensures Reaches(p, path) <==> Reaches(FieldPlace(p, f), path[1..])
  {
    var rest := path[1..];
    assert forall j | 0 <= j < |rest| :: rest[j] == path[j + 1];
    if rest != [] {
      assert f.value.List? || f.value.Dict?;
      assert rest[0].Item? ==> f.value.List?;
      assert rest[0].Member? ==> f.value.Dict?;
    } else {
      assert f.value.Str?;
    }
    if p == Block { BlockMember(f, path); }
  }

  lemma BlockMember(f: Field, path: seq<Sel>)
    requires path != [] && path[0].Member? && path[0].key == f.key
    requires Get(f.value, path[1..]).Some? && Get(f.value, path[1..]).value.Str?
    ensures BlockPath(path) <==> Reaches(FieldPlace(Block, f), path[1..])
  {
    var rest := path[1..];
    assert forall j | 0 <= j < |path| :: j == 0 || path[j] == rest[j - 1];
    assert forall j | 0 <= j < |rest| :: rest[j] == path[j + 1];
    assert rest == [] ==> f.value.Str?;
  }

  /** `r` is `s` masked under a mapping reached on the way from `m` to `final`. */
  ghost predicate MaskedBetween(o: Detectors, m: Mapping, final: Mapping, s: string, r: string) {
    exists before :: Grown(before) && Extends(m, before) && Extends(Masked(o, before, s).0, final)
                     && r == Masked(o, before, s).1
  }

  lemma MaskedWider(o: Detectors, m: Mapping, m': Mapping, final': Mapping, final: Mapping, s: string, r: string)
    requires Extends(m, m') && Extends(final', final) && MaskedBetween(o, m', final', s, r)
    ensures MaskedBetween(o, m, final, s, r)
  {
    hide Extends, Grown, Masked;
    var before :| Grown(before) && Extends(m', before) && Extends(Masked(o, before, s).0, final')
      && r == Masked(o, before, s).1;
    ExtendsTransitive(m, m', before);
    ExtendsTransitive(Masked(o, before, s).0, final', final);
  }

  /** The string at a position after masking: masked where masking acts, untouched elsewhere. */
  ghost predicate StringAt(o: Detectors, m: Mapping, final: Mapping, masked: bool, s: string, r: Option<Json>) {
    && r.Some? && r.value.Str?
    && (masked ==> MaskedBetween(o, m, final, s, r.value.s))
    && (!masked ==> r.value.s == s)
  }

  lemma StringWider(o: Detectors, m: Mapping, m': Mapping, final': Mapping, final: Mapping, masked: bool,
                    s: string, r: Option<Json>)
    requires Extends(m, m') && Extends(final', final) && StringAt(o, m', final', masked, s, r)
    ensures StringAt(o, m, final, masked, s, r)
  {
    hide Extends, MaskedBetween;
    if masked { MaskedWider(o, m, m', final', final, s, r.value.s); }
  }

  lemma {:induction false} MaskedStrings(o: Detectors, m: Mapping, p: Place, b: Json, path: seq<Sel>)
    requires Grown(m) && Get(b, path).Some? && Get(b, path).value.Str?
    ensures var r := Mask(o, m, p, b);
      StringAt(o, m, r.0, Reaches(p, path), Get(b, path).value.s, Get(r.1, path))
    decreases |path|
  {
    var s, r := Get(b, path).value.s, Mask(o, m, p, b);
    if path == [] {
      MaskedHere(o, m, p, s);
    } else if p == Copy {
      assert !Reaches(p, path) && r == (m, b);
    } else if path[0].Item? {
      var i, rest := path[0].i, path[1..];
      ReachesItem(p, path);
      var before := ItemMasked(o, m, ItemPlace(p), b.items, i);
      MaskedStrings(o, before, ItemPlace(p), b.items[i], rest);
      var last := Mask(o, before, ItemPlace(p), b.items[i]);
      assert Get(r.1, path) == Get(last.1, rest);
      hide Mask, Get, Reaches, StringAt;
      StringWider(o, m, before, last.0, r.0, Reaches(p, path), s, Get(r.1, path));
    } else {
      var i, rest := path[0].i, path[1..];
      var f := b.fields[i];
      ReachesMember(p, f, path);
      var before := FieldMasked(o, m, p, b.fields, i);
      MaskedStrings(o, before, FieldPlace(p, f), f.value, rest);
      var last := Mask(o, before, FieldPlace(p, f), f.value);
      assert Get(r.1, path) == Get(last.1, rest);
      hide Mask, Get, Reaches, StringAt;
      StringWider(o, m, before, last.0, r.0, Reaches(p, path), s, Get(r.1, path));
    }
  }

  lemma MaskedHere(o: Detectors, m: Mapping, p: Place, s: string)
    requires Grown(m)
    ensures var r := Mask(o, m, p, Str(s));
      StringAt(o, m, r.0, Reaches(p, []), s, Some(r.1))
  {
    hide Grown, Extends, Masked;
    ExtendsReflexive(m);
    ExtendsReflexive(Masked(o, m, s).0);
  }

  /** Everything but strings: the same kind of value, with the same items and keys. */
  ghost predicate SameShape(a: Option<Json>, b: Option<Json>) {
    match a
    case None => b.None?
    case Some(Str(_)) => b.Some? && b.value.Str?
    case Some(Atom(_)) => b == a
    case Some(List(items)) => b.Some? && b.value.List? && |b.value.items| == |items|
    case Some(Dict(fields)) =>
      && b.Some? && b.value.Dict? && |b.value.fields| == |fields|
      && forall i | 0 <= i < |fields| :: b.value.fields[i].key == fields[i].key
  }

  lemma {:induction false} KeysKept(o: Detectors, m: Mapping, p: Place, fields: seq<Field>)
    ensures forall i | 0 <= i < |fields| :: MaskFields(o, m, p, fields).1[i].key == fields[i].key
  {
    hide Mask;
    if fields != [] { KeysKept(o, m, p, fields[..|fields| - 1]); }
  }

  lemma {:induction false} FieldOf(o: Detectors, m: Mapping, p: Place, fields: seq<Field>, i: nat)
    returns (before: Mapping)
    requires i < |fields|
    ensures MaskFields(o, m, p, fields).1[i]
      == Field(fields[i].key, Mask(o, before, FieldPlace(p, fields[i]), fields[i].value).1)
  {
    hide Mask;
    var n := |fields| - 1;
    if i == n { before := MaskFields(o, m, p, fields[..n]).0; } else { before := FieldOf(o, m, p, fields[..n], i); }
  }

  lemma {:induction false} ItemOf(o: Detectors, m: Mapping, p: Place, items: seq<Json>, i: nat)
    returns (before: Mapping)
    requires i < |items|
    ensures MaskItems(o, m, p, items).1[i] == Mask(o, before, p, items[i]).1
  {
    hide Mask;
    var n := |items| - 1;
    if i == n { before := MaskItems(o, m, p, items[..n]).0; } else { before := ItemOf(o, m, p, items[..n], i); }
  }

  lemma {:induction false} ShapeKept(o: Detectors, m: Mapping, p: Place, b: Json, path: seq<Sel>)
    ensures SameShape(Get(b, path), Get(Mask(o, m, p, b).1, path))
    decreases |path|
  {
    hide Masked;
    var r := Mask(o, m, p, b).1;
    if p == Copy {
      assert r == b;
    } else if path == [] {
      if b.Dict? { KeysKept(o, m, p, b.fields); }
    } else if path[0].Item? {
      if b.List? && path[0].i < |b.items| {
        var before := ItemOf(o, m, ItemPlace(p), b.items, path[0].i);
        ShapeKept(o, before, ItemPlace(p), b.items[path[0].i], path[1..]);
      }
    } else if b.Dict? && path[0].i < |b.fields| {
      KeysKept(o, m, p, b.fields);
      var before := FieldOf(o, m, p, b.fields, path[0].i);
      ShapeKept(o, before, FieldPlace(p, b.fields[path[0].i]), b.fields[path[0].i].value, path[1..]);
    }
  }

  /** Masking messages: a string is masked, under the mapping reached so far, exactly when its
      position says so; every other string, and everything that is not a string, is unchanged. */
  lemma MaskedByPosition(o: Detectors, m: Mapping, messages: seq<Json>, path: seq<Sel>)
    requires Grown(m)
    ensures var b, r := List(messages), Mask(o, m, MessageList, List(messages));
      && SameShape(Get(b, path), Get(r.1, path))
      && (Get(b, path).Some? && Get(b, path).value.Str? ==>
            StringAt(o, m, r.0, MaskedPath(path), Get(b, path).value.s, Get(r.1, path)))
  {
    hide Mask, Get, Grown, MaskedPath, StringAt;
    ShapeKept(o, m, MessageList, List(messages), path);
    if Get(List(messages), path).Some? && Get(List(messages), path).value.Str? {
      MaskedStrings(o, m, MessageList, List(messages), path);
    }
  }
}
