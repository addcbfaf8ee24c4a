/** Flattening a translation tree into dotted keys and building it again
    (`flattenTranslations` and `setNestedValue` of `scripts/control-ui-i18n.ts`). */
module Translations {
  import opened Text

  /** A value of a `TranslationMap`: a string, or another map. */
  datatype Node = Leaf(text: string) | Branch(children: Tree)

  type Tree = map<string, Node>

  // ------------------------------------------------------------------------ leaves by path

  /** Following `path` from `n` ends at the string `v`. */
  ghost predicate HasLeaf(n: Node, path: seq<string>, v: string) {
    if path == [] then n == Leaf(v)
    else n.Branch? && path[0] in n.children && HasLeaf(n.children[path[0]], path[1..], v)
  }

  /** No empty map anywhere in it. */
  ghost predicate Full(n: Node)
    decreases n
  {
    n.Branch? ==> n.children != map[] && forall k | k in n.children :: Full(n.children[k])
  }

  ghost predicate DotFree(n: Node)
    decreases n
  {
    n.Branch? ==> forall k | k in n.children :: '.' !in k && DotFree(n.children[k])
  }

  ghost predicate FullBelow(t: Tree) {
    forall k | k in t :: Full(t[k])
  }

  /** The trees that survive: dot-free keys, no empty maps below the root, and no map under an
      empty key at the top. */
  ghost predicate Rebuildable(t: Tree) {
    DotFree(Branch(t)) && FullBelow(t) && ("" in t ==> t[""].Leaf?)
  }

  // --------------------------------------------------------------------------- dotted keys

  /** The parts between the dots. */
  function Split(s: string): (parts: seq<string>)
    ensures parts != [] && forall i | 0 <= i < |parts| :: '.' !in parts[i]
    decreases |s|
  {
    var i := IndexOf(s, '.');
    if i == |s| then [s] else [s[..i]] + Split(s[i + 1..])
  }

  function Dotted(path: seq<string>): string
    requires path != []
  {
    if |path| == 1 then path[0] else path[0] + "." + Dotted(path[1..])
  }

  /** The key under which flattening stores a leaf: the keys on its path joined by dots, an empty prefix left out. */
  function FlatKey(prefix: string, path: seq<string>): string
    decreases |path|
  {
    if path == [] then prefix
    else FlatKey(if prefix != "" then prefix + "." + path[0] else path[0], path[1..])
  }

  ghost predicate NoDots(path: seq<string>) {
    forall i | 0 <= i < |path| :: '.' !in path[i]
  }

  lemma {:induction false} SplitDotted(path: seq<string>)
    requires path != [] && NoDots(path)
    ensures Split(Dotted(path)) == path
  {
    var s := Dotted(path);
    if |path| == 1 {
      assert path == [path[0]];
    } else {
      SplitDotted(path[1..]);
      assert s[|path[0]|] == '.';
      assert forall j | 0 <= j < |path[0]| :: s[j] == path[0][j];
      assert IndexOf(s, '.') == |path[0]|;
      assert s[..|path[0]|] == path[0] && s[|path[0]| + 1..] == Dotted(path[1..]);
    }
  }

  lemma {:induction false} FlatKeyUnderPrefix(prefix: string, path: seq<string>)
    requires prefix != "" && path != []
    ensures FlatKey(prefix, path) == prefix + "." + Dotted(path)
    decreases |path|
  {
    if |path| > 1 {
      FlatKeyUnderPrefix(prefix + "." + path[0], path[1..]);
      assert (prefix + "." + path[0]) + "." + Dotted(path[1..]) == prefix + "." + (path[0] + "." + Dotted(path[1..]));
    } else {
      assert path[1..] == [];
    }
  }

  lemma FlatKeyIsDotted(path: seq<string>)
    requires path != [] && (path[0] != "" || |path| == 1)
    ensures FlatKey("", path) == Dotted(path)
  {
    if |path| == 1 {
      assert path[1..] == [];
    } else {
      FlatKeyUnderPrefix(path[0], path[1..]);
    }
  }

  lemma {:induction false} FlatKeyNoLeadingDot(prefix: string, path: seq<string>)
    requires NoDots(path) && !(prefix != "" && prefix[0] == '.')
    ensures var k := FlatKey(prefix, path); !(k != "" && k[0] == '.')
    decreases |path|
  {
    if path != [] {
      assert path[0] != "" ==> path[0][0] in path[0];
      FlatKeyNoLeadingDot(if prefix != "" then prefix + "." + path[0] else path[0], path[1..]);
    }
  }

  lemma {:induction false} LeafPathNoDots(n: Node, path: seq<string>, v: string)
    requires DotFree(n) && HasLeaf(n, path, v)
    ensures NoDots(path)
  {
    if path != [] {
      LeafPathNoDots(n.children[path[0]], path[1..], v);
      assert forall i | 1 <= i < |path| :: path[i] == path[1..][i - 1];
    }
  }

  // ----------------------------------------------------------------------------- flattening

  /** The `Map` that flattening fills. */
  class Out {
    var m: map<string, string>

    constructor ()
      ensures m == map[]
    {
      m := map[];
    }
  }

  /** Every key comes from a leaf, with that leaf's text, and every leaf has its key. */
  ghost predicate IsFlat(m: map<string, string>, t: Tree) {
    && (forall k | k in m :: exists path :: HasLeaf(Branch(t), path, m[k]) && FlatKey("", path) == k)
    && (forall path, v | HasLeaf(Branch(t), path, v) :: FlatKey("", path) in m)
  }

  /** The same below a prefix, for some of the keys of `t`, on top of what was there. */
  ghost predicate FlatBelow(before: map<string, string>, m: map<string, string>, t: Tree,
                            done: set<string>, prefix: string)
  {
    && (forall k | k in before :: k in m)
    && (forall k | k in m :: (k in before && m[k] == before[k]) || FromLeaf(t, done, prefix, k, m[k]))
    && (forall path, v | HasLeaf(Branch(t), path, v) && path[0] in done :: FlatKey(prefix, path) in m)
  }

  ghost predicate FromLeaf(t: Tree, done: set<string>, prefix: string, k: string, v: string) {
    exists path :: HasLeaf(Branch(t), path, v) && path[0] in done && FlatKey(prefix, path) == k
  }

  method FlattenTranslations(value: Tree, prefix: string, out: Out)
    modifies out
    ensures FlatBelow(old(out.m), out.m, value, value.Keys, prefix)
    decreases Branch(value)
  {
    ghost var before := out.m;
    var todo := value.Keys;
    while todo != {}
      invariant todo <= value.Keys
      invariant FlatBelow(before, out.m, value, value.Keys - todo, prefix)
      decreases todo
    {
      var key :| key in todo;
      var nested := value[key];
      var fullKey := if prefix != "" then prefix + "." + key else key;
      ghost var earlier, done := out.m, value.Keys - todo;
      if nested.Leaf? {
        out.m := out.m[fullKey := nested.text];
        OneLeafFlat(before, earlier, value, done, prefix, key);
      } else {
        FlattenTranslations(nested.children, fullKey, out);
        OneBranchFlat(before, earlier, out.m, value, done, prefix, key);
      }
      todo := todo - {key};
      assert value.Keys - todo == done + {key};
    }
    assert value.Keys - todo == value.Keys;
  }

  lemma OneLeafFlat(before: map<string, string>, m: map<string, string>, t: Tree,
                    done: set<string>, prefix: string, key: string)
    requires FlatBelow(before, m, t, done, prefix) && key in t && t[key].Leaf?
    ensures var full := if prefix != "" then prefix + "." + key else key;
      FlatBelow(before, m[full := t[key].text], t, done + {key}, prefix)
  {
    var full := if prefix != "" then prefix + "." + key else key;
    var m' := m[full := t[key].text];
    assert [key][1..] == [];
    assert HasLeaf(Branch(t), [key], t[key].text);
    assert FlatKey(full, []) == full;
    assert FlatKey(prefix, [key]) == FlatKey(full, [key][1..]);
    forall k | k in m' ensures (k in before && m'[k] == before[k]) || FromLeaf(t, done + {key}, prefix, k, m'[k]) {
      if k != full && FromLeaf(t, done, prefix, k, m'[k]) {
        var path :| HasLeaf(Branch(t), path, m'[k]) && path[0] in done && FlatKey(prefix, path) == k;
        assert path[0] in done + {key};
      }
    }
    forall path, v | HasLeaf(Branch(t), path, v) && path[0] in done + {key} ensures FlatKey(prefix, path) in m' {
      if path[0] == key && path[0] !in done {
        assert HasLeaf(t[key], path[1..], v) && path[1..] == [];
        assert path == [key];
      }
    }
  }

  lemma OneBranchFlat(before: map<string, string>, m: map<string, string>, m': map<string, string>, t: Tree,
                      done: set<string>, prefix: string, key: string)
    requires FlatBelow(before, m, t, done, prefix) && key in t && t[key].Branch?
    requires var full := if prefix != "" then prefix + "." + key else key;
      FlatBelow(m, m', t[key].children, t[key].children.Keys, full)
    ensures FlatBelow(before, m', t, done + {key}, prefix)
  {
    var full := if prefix != "" then prefix + "." + key else key;
    var sub := t[key].children;
    forall k | k in m' ensures (k in before && m'[k] == before[k]) || FromLeaf(t, done + {key}, prefix, k, m'[k]) {
      if FromLeaf(sub, sub.Keys, full, k, m'[k]) {
        var path :| HasLeaf(Branch(sub), path, m'[k]) && path[0] in sub.Keys && FlatKey(full, path) == k;
        var longer := [key] + path;
        assert longer[1..] == path;
        assert HasLeaf(Branch(t), longer, m'[k]) && longer[0] in done + {key} && FlatKey(prefix, longer) == k;
      } else if FromLeaf(t, done, prefix, k, m'[k]) {
        var path :| HasLeaf(Branch(t), path, m'[k]) && path[0] in done && FlatKey(prefix, path) == k;
        assert path[0] in done + {key};
      }
    }
    forall path, v | HasLeaf(Branch(t), path, v) && path[0] in done + {key} ensures FlatKey(prefix, path) in m' {
      if path[0] == key && path[0] !in done {
        assert HasLeaf(Branch(sub), path[1..], v);
        assert path[1..] != [];
        assert path[1..][0] in sub.Keys;
      }
    }
  }

  /** Flattening from the top, in whatever order the keys come. */
  method Flatten(value: Tree) returns (m: map<string, string>)
    ensures IsFlat(m, value)
  {
    var out := new Out();
    FlattenTranslations(value, "", out);
    m := out.m;
    forall k | k in m ensures exists path :: HasLeaf(Branch(value), path, m[k]) && FlatKey("", path) == k {
      assert FromLeaf(value, value.Keys, "", k, m[k]);
    }
  }

  // ---------------------------------------------------------------------------- rebuilding

  /** `setNestedValue` with the key already split: a missing value or a string on the way is
      replaced by a fresh map. */
  function SetPath(t: Tree, parts: seq<string>, v: string): Tree
    requires parts != []
    decreases |parts|
  {
    if |parts| == 1 then t[parts[0] := Leaf(v)]
    else
      var next := if parts[0] in t && t[parts[0]].Branch? then t[parts[0]].children else map[];
      t[parts[0] := Branch(SetPath(next, parts[1..], v))]
  }

  /** A string stands on the way, so that one would be lost. */
  ghost predicate OverwritesString(t: Tree, parts: seq<string>)
    requires parts != []
    decreases |parts|
  {
    |parts| > 1 && parts[0] in t
    && (t[parts[0]].Leaf? || OverwritesString(t[parts[0]].children, parts[1..]))
  }

  /** Every key set, one after another, on an empty map. */
  function Rebuild(m: map<string, string>, keys: seq<string>): Tree
    requires forall k | k in keys :: k in m
  {
    if keys == [] then map[]
    else
      var n := |keys| - 1;
      SetPath(Rebuild(m, keys[..n]), Split(keys[n]), m[keys[n]])
  }

  /** The keys of the map in some order, each once. */
  ghost predicate Enumerates(keys: seq<string>, m: map<string, string>) {
    && (forall k :: k in keys <==> k in m)
    && forall i, j | 0 <= i < j < |keys| :: keys[i] != keys[j]
  }

  ghost predicate IsPrefix(p: seq<string>, q: seq<string>) {
    |p| <= |q| && q[..|p|] == p
  }

  /** No leaf lies on the way to another. */
  lemma {:induction false} LeavesPrefixFree(n: Node, p: seq<string>, v: string, q: seq<string>, w: string)
    requires HasLeaf(n, p, v) && HasLeaf(n, q, w) && IsPrefix(p, q)
    ensures p == q && v == w
  {
    if p != [] {
      assert p[0] == q[0] && q[1..][..|p| - 1] == p[1..];
      LeavesPrefixFree(n.children[p[0]], p[1..], v, q[1..], w);
    }
  }

  lemma {:induction false} OverwrittenIsLeaf(t: Tree, p: seq<string>) returns (j: nat, w: string)
    requires p != [] && OverwritesString(t, p)
    ensures j < |p| && HasLeaf(Branch(t), p[..j], w)
    decreases |p|
  {
    if t[p[0]].Leaf? {
      j, w := 1, t[p[0]].text;
      assert p[..1][1..] == [];
    } else {
      j, w := OverwrittenIsLeaf(t[p[0]].children, p[1..]);
      assert p[..j + 1][1..] == p[1..][..j];
      j := j + 1;
    }
  }

  /** Setting a path adds one leaf and keeps every other that does not lie below it. */
  lemma {:induction false} SetPathLeaves(t: Tree, p: seq<string>, v: string, q: seq<string>, w: string)
    requires p != [] && !OverwritesString(t, p)
    ensures HasLeaf(Branch(SetPath(t, p, v)), q, w) <==>
      (q == p && w == v) || (!IsPrefix(p, q) && HasLeaf(Branch(t), q, w))
    decreases |p|
  {
    var r := SetPath(t, p, v);
    if q == [] {
    } else if q[0] != p[0] {
      assert !IsPrefix(p, q);
    } else if |p| == 1 {
      assert r[p[0]] == Leaf(v);
      assert IsPrefix(p, q);
      assert q == p <==> q[1..] == [];
    } else {
      var next := if p[0] in t && t[p[0]].Branch? then t[p[0]].children else map[];
      SetPathLeaves(next, p[1..], v, q[1..], w);
      assert q == p <==> q[1..] == p[1..];
      assert IsPrefix(p, q) <==> IsPrefix(p[1..], q[1..]) by { PrefixTail(p, q); }
      assert HasLeaf(Branch(r), q, w) <==> HasLeaf(Branch(SetPath(next, p[1..], v)), q[1..], w);
      if p[0] !in t { NoLeafInEmpty(q[1..], w); }
    }
  }

  /** The same whatever is there: a leaf on the way to the path, or below it, is lost, and every
      other is kept. */
  lemma {:induction false} SetPathLeavesAll(t: Tree, p: seq<string>, v: string, q: seq<string>, w: string)
    requires p != []
    ensures HasLeaf(Branch(SetPath(t, p, v)), q, w) <==>
      (q == p && w == v) || (!IsPrefix(p, q) && !IsPrefix(q, p) && HasLeaf(Branch(t), q, w))
    decreases |p|
  {
    if q == [] {
      assert IsPrefix(q, p);
    } else if p[0] == q[0] {
      PrefixTail(p, q);
      PrefixTail(q, p);
      if |p| > 1 {
        var next := if p[0] in t && t[p[0]].Branch? then t[p[0]].children else map[];
        SetPathLeavesAll(next, p[1..], v, q[1..], w);
        if q[1..] == [] { assert q == [p[0]]; }
        if next == map[] { NoLeafInEmpty(q[1..], w); }
        assert q == p <==> q[1..] == p[1..] by { assert p == [p[0]] + p[1..] && q == [q[0]] + q[1..]; }
      } else {
        assert p == [p[0]] && IsPrefix(p, q);
        assert q == p <==> q[1..] == [] by { assert q == [q[0]] + q[1..]; }
      }
    } else {
      assert !IsPrefix(p, q) && !IsPrefix(q, p);
    }
  }

  /** Dots separate the keys on a path. */
  lemma DotsSeparate()
    ensures Split("a.b") == ["a", "b"] && Split("a") == ["a"] && Split("a/b") == ["a/b"]
    ensures FlatKey("", ["a", "b"]) == "a.b" && FlatKey("a", ["b"]) == "a.b" && FlatKey("", ["a"]) == "a"
  {
    assert ["a", "b"][1..] == ["b"] && ["b"][1..] == [] && ["a"][1..] == [];
    assert NoDots(["a", "b"]) && NoDots(["a"]) && NoDots(["a/b"]);
    assert Dotted(["a", "b"]) == "a.b" && Dotted(["a"]) == "a" && Dotted(["a/b"]) == "a/b";
    SplitDotted(["a", "b"]);
    SplitDotted(["a"]);
    SplitDotted(["a/b"]);
    FlatKeyIsDotted(["a", "b"]);
    FlatKeyIsDotted(["a"]);
    FlatKeyUnderPrefix("a", ["b"]);
  }

  lemma NoLeafInEmpty(path: seq<string>, w: string)
    ensures !HasLeaf(Branch(map[]), path, w)
  {}

  lemma PrefixTail(p: seq<string>, q: seq<string>)
    requires p != [] && q != [] && p[0] == q[0]
    ensures IsPrefix(p, q) <==> IsPrefix(p[1..], q[1..])
  {
    if |p| <= |q| {
      assert q[..|p|] == [q[0]] + q[1..][..|p| - 1];
      assert p == [p[0]] + p[1..];
    }
  }

  lemma {:induction false} SetPathFull(t: Tree, p: seq<string>, v: string)
    requires p != [] && FullBelow(t)
    ensures FullBelow(SetPath(t, p, v)) && SetPath(t, p, v) != map[]
    decreases |p|
  {
    if |p| > 1 {
      var next := if p[0] in t && t[p[0]].Branch? then t[p[0]].children else map[];
      SetPathFull(next, p[1..], v);
    }
    assert p[0] in SetPath(t, p, v);
  }

  lemma {:induction false} SetPathDotFree(t: Tree, p: seq<string>, v: string)
    requires p != [] && NoDots(p) && DotFree(Branch(t))
    ensures DotFree(Branch(SetPath(t, p, v)))
    decreases |p|
  {
    if |p| > 1 {
      var next := if p[0] in t && t[p[0]].Branch? then t[p[0]].children else map[];
      SetPathDotFree(next, p[1..], v);
    }
  }

  /** A tree without empty maps has a leaf. */
  lemma {:induction false} SomeLeaf(n: Node) returns (path: seq<string>, v: string)
    requires Full(n)
    ensures HasLeaf(n, path, v)
    decreases n
  {
    if n.Leaf? {
      path, v := [], n.text;
    } else {
      var k :| k in n.children;
      var rest, w := SomeLeaf(n.children[k]);
      path, v := [k] + rest, w;
      assert path[1..] == rest;
    }
  }

  /** Such trees are determined by their leaves. */
  lemma {:induction false} SameLeavesSameTree(a: Tree, b: Tree)
    requires FullBelow(a) && FullBelow(b)
    requires forall path, v :: HasLeaf(Branch(a), path, v) <==> HasLeaf(Branch(b), path, v)
    ensures a == b
    decreases Branch(a)
  {
    forall k | k in a || k in b ensures k in a && k in b && a[k] == b[k] {
      SameLeavesSameKey(a, b, k);
    }
  }

  lemma {:induction false} SameLeavesSameKey(a: Tree, b: Tree, k: string)
    requires FullBelow(a) && FullBelow(b) && (k in a || k in b)
    requires forall path, v :: HasLeaf(Branch(a), path, v) <==> HasLeaf(Branch(b), path, v)
    ensures k in a && k in b && a[k] == b[k]
    decreases Branch(a), 0
  {
    var rest, v := SomeLeaf(if k in a then a[k] else b[k]);
    assert ([k] + rest)[1..] == rest;
    assert HasLeaf(Branch(a), [k] + rest, v) && HasLeaf(Branch(b), [k] + rest, v);
    forall path, w ensures HasLeaf(a[k], path, w) <==> HasLeaf(b[k], path, w) {
      assert ([k] + path)[1..] == path;
      assert HasLeaf(Branch(a), [k] + path, w) <==> HasLeaf(Branch(b), [k] + path, w);
    }
    var x, y := if a[k].Leaf? then a[k].text else "", if b[k].Leaf? then b[k].text else "";
    assert HasLeaf(a[k], [], x) <==> HasLeaf(b[k], [], x);
    assert HasLeaf(a[k], [], y) <==> HasLeaf(b[k], [], y);
    if a[k].Branch? && b[k].Branch? {
      SameLeavesSameTree(a[k].children, b[k].children);
    }
  }

  // ------------------------------------------------------------------------ the round trip

  lemma LeafKey(t: Tree, path: seq<string>, v: string)
    requires Rebuildable(t) && HasLeaf(Branch(t), path, v)
    ensures path != [] && FlatKey("", path) == Dotted(path) && Split(Dotted(path)) == path
  {
    if path[0] == "" {
      assert path[1..] == [];
    }
    FlatKeyIsDotted(path);
    LeafPathNoDots(Branch(t), path, v);
    SplitDotted(path);
  }

  /** After any of the keys, in any order: exactly their leaves are there. */
  ghost predicate Partial(t: Tree, r: Tree, keys: seq<string>) {
    && FullBelow(r)
    && forall path, v :: HasLeaf(Branch(r), path, v) <==> HasLeaf(Branch(t), path, v) && Dotted'(path) in keys
  }

  ghost function Dotted'(path: seq<string>): string {
    if path == [] then "" else Dotted(path)
  }

  lemma {:induction false} RebuildPartial(t: Tree, m: map<string, string>, keys: seq<string>)
    requires Rebuildable(t) && IsFlat(m, t) && forall k | k in keys :: k in m
    ensures Partial(t, Rebuild(m, keys), keys)
    ensures forall i | 0 <= i < |keys| :: !OverwritesString(Rebuild(m, keys[..i]), Split(keys[i]))
  {
    hide HasLeaf, SetPath, OverwritesString, Split, FlatKey, Dotted, Rebuildable, IsFlat;
    if keys == [] {
      forall path, v { NoLeafInEmpty(path, v); }
    } else {
      var n := |keys| - 1;
      var front, key := keys[..n], keys[n];
      var r := Rebuild(m, front);
      RebuildPartial(t, m, front);
      assert key in keys;
      AddOneKey(t, m, front, key);
      assert keys == front + [key];
      forall i | 0 <= i < |keys| ensures !OverwritesString(Rebuild(m, keys[..i]), Split(keys[i])) {
        if i < n { assert front[..i] == keys[..i] && front[i] == keys[i]; }
      }
    }
  }

  lemma AddOneKey(t: Tree, m: map<string, string>, front: seq<string>, key: string)
    requires Rebuildable(t) && IsFlat(m, t) && key in m && forall k | k in front :: k in m
    requires Partial(t, Rebuild(m, front), front)
    ensures var r := Rebuild(m, front);
      !OverwritesString(r, Split(key)) && Partial(t, SetPath(r, Split(key), m[key]), front + [key])
  {
    hide HasLeaf, SetPath, OverwritesString, Split, FlatKey, Dotted, Rebuildable, Rebuild, Partial;
    var p :| HasLeaf(Branch(t), p, m[key]) && FlatKey("", p) == key;
    LeafKey(t, p, m[key]);
    AddPath(t, Rebuild(m, front), front, p, m[key]);
  }

  lemma AddPath(t: Tree, r: Tree, front: seq<string>, p: seq<string>, v: string)
    requires Rebuildable(t) && HasLeaf(Branch(t), p, v) && p != [] && Partial(t, r, front)
    ensures !OverwritesString(r, p) && Partial(t, SetPath(r, p, v), front + [Dotted(p)])
  {
    hide HasLeaf, SetPath, OverwritesString, Dotted, Dotted', Rebuildable, FullBelow;
    if OverwritesString(r, p) {
      var j, w := OverwrittenIsLeaf(r, p);
      LeavesPrefixFree(Branch(t), p[..j], w, p, v);
    }
    SetPathFull(r, p, v);
    forall path, w
      ensures HasLeaf(Branch(SetPath(r, p, v)), path, w) <==>
        HasLeaf(Branch(t), path, w) && Dotted'(path) in front + [Dotted(p)]
    {
      AfterOneKey(t, r, front, p, v, path, w);
    }
  }

  lemma AfterOneKey(t: Tree, r: Tree, front: seq<string>, p: seq<string>, v: string, path: seq<string>, w: string)
    requires Rebuildable(t) && HasLeaf(Branch(t), p, v) && p != [] && !OverwritesString(r, p)
    requires HasLeaf(Branch(r), path, w) <==> HasLeaf(Branch(t), path, w) && Dotted'(path) in front
    ensures HasLeaf(Branch(SetPath(r, p, v)), path, w) <==>
      HasLeaf(Branch(t), path, w) && Dotted'(path) in front + [Dotted(p)]
  {
    hide HasLeaf, SetPath, OverwritesString, Split, FlatKey, Dotted, Rebuildable;
    SetPathLeaves(r, p, v, path, w);
    LeafKey(t, p, v);
    if HasLeaf(Branch(t), path, w) {
      LeafKey(t, path, w);
      if IsPrefix(p, path) { LeavesPrefixFree(Branch(t), p, v, path, w); }
    }
  }

  lemma FlatHasKey(m: map<string, string>, t: Tree, path: seq<string>, v: string)
    requires IsFlat(m, t) && HasLeaf(Branch(t), path, v)
    ensures FlatKey("", path) in m
  {}

  /** Rebuilding from the flattened entries gives the same tree back, in any insertion order,
      and never overwrites a string on the way. */
  lemma RebuildGivesTree(t: Tree, m: map<string, string>, keys: seq<string>)
    requires Rebuildable(t) && IsFlat(m, t) && Enumerates(keys, m)
    ensures Rebuild(m, keys) == t
    ensures forall i | 0 <= i < |keys| :: !OverwritesString(Rebuild(m, keys[..i]), Split(keys[i]))
  {
    hide HasLeaf, SetPath, OverwritesString, Split, FlatKey, Rebuild, Full, Dotted, IsFlat;
    RebuildPartial(t, m, keys);
    forall path, v ensures HasLeaf(Branch(Rebuild(m, keys)), path, v) <==> HasLeaf(Branch(t), path, v) {
      if HasLeaf(Branch(t), path, v) {
        LeafKey(t, path, v);
        FlatHasKey(m, t, path, v);
      }
    }
    SameLeavesSameTree(Rebuild(m, keys), t);
  }

  /** Whatever the keys, what is built has dot-free keys and no empty maps; and when no key
      begins with a dot, it has no map under an empty key at the top. */
  lemma {:induction false} RebuildIsClean(m: map<string, string>, keys: seq<string>)
    requires forall k | k in keys :: k in m
    ensures var r := Rebuild(m, keys);
      && DotFree(Branch(r)) && FullBelow(r)
      && ((forall k | k in keys :: !(k != "" && k[0] == '.')) ==> "" in r ==> r[""].Leaf?)
  {
    if keys != [] {
      var n := |keys| - 1;
      var r, parts := Rebuild(m, keys[..n]), Split(keys[n]);
      RebuildIsClean(m, keys[..n]);
      SetPathFull(r, parts, m[keys[n]]);
      SetPathDotFree(r, parts, m[keys[n]]);
      assert keys[n] in keys;
      if |parts| > 1 && parts[0] == "" {
        assert IndexOf(keys[n], '.') == 0;
      }
    }
  }

  /** The exact condition for a translation tree to survive. */
  lemma RebuildIff(t: Tree, m: map<string, string>, keys: seq<string>)
    requires IsFlat(m, t) && Enumerates(keys, m)
    ensures Rebuild(m, keys) == t <==> Rebuildable(t)
  {
    if Rebuildable(t) {
      RebuildGivesTree(t, m, keys);
    }
    if Rebuild(m, keys) == t {
      RebuildIsClean(m, keys);
      forall k | k in keys ensures !(k != "" && k[0] == '.') {
        var path :| HasLeaf(Branch(t), path, m[k]) && FlatKey("", path) == k;
        LeafPathNoDots(Branch(t), path, m[k]);
        FlatKeyNoLeadingDot("", path);
      }
    }
  }
}
