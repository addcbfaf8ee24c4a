/** `setNestedValue` on mutable nested objects, as the script runs it: maps that hold strings
    or other maps, updated in place. */
module NestedMaps {
  import opened Translations

  datatype Entry = Str(s: string) | Sub(target: MapObject)

  class MapObject {
    var entries: map<string, Entry>
    /** The tree this object stands for, and the objects that make it up. */
    ghost var tree: Tree
    ghost var Repr: set<MapObject>

    ghost predicate Valid()
      reads this, Repr
      ensures Valid() ==> this in Repr
      decreases Repr
    {
      && this in Repr
      && tree.Keys == entries.Keys
      && (forall k | k in entries && entries[k].Str? :: tree[k] == Leaf(entries[k].s))
      && (forall k | k in entries && entries[k].Sub? ::
            && entries[k].target in Repr && entries[k].target.Repr <= Repr && this !in entries[k].target.Repr
            && entries[k].target.Valid() && tree[k] == Branch(entries[k].target.tree))
      && (forall j, k | j in entries && k in entries && j != k && entries[j].Sub? && entries[k].Sub? ::
            entries[j].target.Repr !! entries[k].target.Repr)
    }

    /** Valid but for what it records of the map under `key`. */
    ghost predicate ValidBut(key: string)
      reads this, Repr
    {
      && this in Repr
      && tree.Keys == entries.Keys
      && (forall k | k in entries && k != key && entries[k].Str? :: tree[k] == Leaf(entries[k].s))
      && (forall k | k in entries && k != key && entries[k].Sub? :: Holds(k))
      && (forall j, k | j in entries && k in entries && j != key && k != key && j != k
                        && entries[j].Sub? && entries[k].Sub? :: entries[j].target.Repr !! entries[k].target.Repr)
    }

    ghost predicate Holds(k: string)
      requires k in entries && entries[k].Sub?
      reads this, Repr
    {
      && entries[k].target in Repr && entries[k].target.Repr <= Repr && this !in entries[k].target.Repr
      && entries[k].target.Valid() && k in tree && tree[k] == Branch(entries[k].target.tree)
    }

    /** What validity says of the map under `key` and of those beside it. */
    lemma Siblings(key: string)
      requires Valid() && key in entries && entries[key].Sub?
      ensures ValidBut(key)
      ensures var next := entries[key].target;
        && next.Valid() && next.Repr <= Repr && this !in next.Repr
        && forall k | k in entries && k != key && entries[k].Sub? :: Holds(k) && entries[k].target.Repr !! next.Repr
    {}

    /** Records the map under `key` as it now is. */
    ghost method Adopt(key: string)
      requires ValidBut(key) && key in entries && entries[key].Sub?
      requires var next := entries[key].target;
        next.Valid() && this !in next.Repr
        && forall k | k in entries && k != key && entries[k].Sub? :: entries[k].target.Repr !! next.Repr
      modifies this`tree, this`Repr
      ensures Valid() && tree == old(tree)[key := Branch(entries[key].target.tree)]
      ensures Repr == old(Repr) + entries[key].target.Repr
    {
      hide Valid;
      var next := entries[key].target;
      label before:
      tree := tree[key := Branch(next.tree)];
      Repr := Repr + next.Repr;
      forall k | k in entries && k != key && entries[k].Sub? ensures Holds(k) {
        assert old@before(Holds(k));
      }
      Completed(key);
    }

    lemma Completed(key: string)
      requires ValidBut(key) && key in entries && entries[key].Sub? && Holds(key)
      requires forall k | k in entries && k != key && entries[k].Sub? ::
        entries[k].target.Repr !! entries[key].target.Repr
      ensures Valid()
    {}

    constructor ()
      ensures Valid() && fresh(Repr) && tree == map[]
    {
      entries, tree := map[], map[];
      Repr := {this};
    }

    /** The map under `key`, a fresh one in place of nothing or of a string. */
    method Descend(key: string) returns (next: MapObject)
      requires Valid()
      modifies this
      ensures Valid() && fresh(Repr - old(Repr)) && key in entries && entries[key] == Sub(next)
      ensures var sub := if key in old(tree) && old(tree)[key].Branch? then old(tree)[key].children else map[];
        next.tree == sub && tree == old(tree)[key := Branch(sub)]
    {
      if key !in entries || entries[key].Str? {
        next := new MapObject();
        entries := entries[key := Sub(next)];
        tree := tree[key := Branch(map[])];
        Repr := Repr + next.Repr;
      } else {
        next := entries[key].target;
        assert tree == tree[key := tree[key]];
      }
    }

    method SetLeaf(key: string, value: string)
      requires Valid()
      modifies this
      ensures Valid() && Repr == old(Repr) && tree == old(tree)[key := Leaf(value)]
    {
      entries := entries[key := Str(value)];
      tree := tree[key := Leaf(value)];
    }

    /** Walks to the map that holds the last key, creating or replacing maps on the way. */
    method SetNestedValue(parts: seq<string>, value: string)
      requires Valid() && parts != []
      modifies Repr
      ensures Valid() && fresh(Repr - old(Repr))
      ensures tree == SetPath(old(tree), parts, value)
      decreases |parts|
    {
      hide SetPath, Valid, ValidBut, Holds;
      SetPathStep(tree, parts, value);
      var key := parts[0];
      if |parts| == 1 {
        SetLeaf(key, value);
      } else {
        var next := Descend(key);
        Siblings(key);
        label descended:
        next.SetNestedValue(parts[1..], value);
        SiblingsKept@descended(key);
        Adopt(key);
      }
    }

    /** What changes only in the map under `key`, and in new objects, leaves the others alone. */
    twostate lemma SiblingsKept(key: string)
      requires old(ValidBut(key)) && unchanged(this) && key in entries && entries[key].Sub?
      requires var next := entries[key].target;
        && next.Valid() && fresh(next.Repr - old(next.Repr)) && this !in next.Repr
        && (forall k | k in entries && k != key && entries[k].Sub? ::
              old(Holds(k)) && old(entries[k].target.Repr) !! old(next.Repr))
        && (forall x | x in Repr && x !in old(next.Repr) :: unchanged(x))
      ensures ValidBut(key)
      ensures forall k | k in entries && k != key && entries[k].Sub? ::
        entries[k].target.Repr !! entries[key].target.Repr
    {
      forall k | k in entries && k != key && entries[k].Sub?
        ensures Holds(k) && entries[k].target.Repr !! entries[key].target.Repr
      {
        assert old(Holds(k));
      }
    }
  }

  lemma SetPathStep(t: Tree, parts: seq<string>, v: string)
    requires parts != []
    ensures SetPath(t, parts, v) ==
      if |parts| == 1 then t[parts[0] := Leaf(v)]
      else
        var next := if parts[0] in t && t[parts[0]].Branch? then t[parts[0]].children else map[];
        t[parts[0] := Branch(SetPath(next, parts[1..], v))]
  {}

  /** Building the map of a locale: one `setNestedValue` per flattened key. */
  method BuildMap(m: map<string, string>, keys: seq<string>) returns (root: MapObject)
    requires forall k | k in keys :: k in m
    ensures root.Valid() && fresh(root.Repr) && root.tree == Rebuild(m, keys)
  {
    root := new MapObject();
    assert keys[..0] == [];
    for i := 0 to |keys|
      invariant root.Valid() && fresh(root.Repr) && root.tree == Rebuild(m, keys[..i])
    {
      assert keys[..i + 1][..i] == keys[..i];
      root.SetNestedValue(Split(keys[i]), m[keys[i]]);
    }
    assert keys[..|keys|] == keys;
  }
}
