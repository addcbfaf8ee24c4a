/** The placeholder mapping (`PiiMapping` of `pii/masker.py`): how placeholders are issued,
    and what holds of every mapping grown from an empty one. */
module Mappings {
  import opened Text
  import opened Placeholders
  import opened Detection

  /** The contents of a `PiiMapping`. */
  datatype Mapping = Mapping(
    forward: map<string, string>, reverse: map<string, string>, counters: map<string, nat>)

  const EMPTY: Mapping := Mapping(map[], map[], map[])

  /** The normalised form of a name, the surface of everything else. */
  function CacheKey(d: Detection): string {
    d.normalized.GetOr(d.surface)
  }

  function Counter(m: Mapping, category: string): nat {
    if category in m.counters then m.counters[category] else 0
  }

  /** The placeholder of a detection: the one its key has, or else the next of its type. */
  function Issue(m: Mapping, d: Detection): (Mapping, string) {
    var key := CacheKey(d);
    if key in m.forward then (m, m.forward[key])
    else
      var n := Counter(m, d.category) + 1;
      var p := Placeholder(d.category, n);
      (Mapping(m.forward[key := p], m.reverse[p := d.surface], m.counters[d.category := n]), p)
  }

  /** The mapping after a list of detections, and the placeholder each one got. */
  function IssueAll(m: Mapping, ds: seq<Detection>): (r: (Mapping, seq<string>))
    ensures |r.1| == |ds|
  {
    if ds == [] then (m, [])
    else
      var front := IssueAll(m, ds[..|ds| - 1]);
      var last := Issue(front.0, ds[|ds| - 1]);
      (last.0, front.1 + [last.1])
  }

  lemma IssueAllSnoc(m: Mapping, ds: seq<Detection>, d: Detection)
    ensures var front := IssueAll(m, ds);
      var last := Issue(front.0, d);
      IssueAll(m, ds + [d]) == (last.0, front.1 + [last.1])
  {
    assert (ds + [d])[..|ds|] == ds;
  }

  lemma {:induction false} IssueAllAppend(m: Mapping, a: seq<Detection>, b: seq<Detection>)
    ensures var first := IssueAll(m, a);
      var second := IssueAll(first.0, b);
      IssueAll(m, a + b) == (second.0, first.1 + second.1)
  {
    hide Issue;
    var first := IssueAll(m, a);
    if b == [] {
      assert a + b == a;
      assert first.1 + [] == first.1;
    } else {
      var n := |b| - 1;
      IssueAllAppend(m, a, b[..n]);
      IssueAllSnoc(m, a + b[..n], b[n]);
      IssueAllSnoc(first.0, b[..n], b[n]);
      assert a + b == (a + b[..n]) + [b[n]] && b == b[..n] + [b[n]];
      hide IssueAll;
      var front := IssueAll(first.0, b[..n]);
      var last := Issue(front.0, b[n]);
      assert first.1 + (front.1 + [last.1]) == (first.1 + front.1) + [last.1];
    }
  }

  // ------------------------------------------------------ mappings grown from an empty one

  /** `p` carries a number its type's counter has reached. */
  ghost predicate Numbered(m: Mapping, p: string) {
    exists c: string, n: nat :: 1 <= n <= Counter(m, c) && p == Placeholder(c, n)
  }

  ghost predicate Grown(m: Mapping) {
    && (forall c | c in m.counters :: c in NARROW_TYPES)
    && (forall p :: p in m.reverse <==> Numbered(m, p))
    && (forall k | k in m.forward :: m.forward[k] in m.reverse)
    && Injective(m.forward)
  }

  ghost predicate Injective(f: map<string, string>) {
    forall k, k' | k in f && k' in f && f[k] == f[k'] :: k == k'
  }

  /** Nothing in `m` was dropped or overwritten on the way to `m'`. */
  ghost predicate Extends(m: Mapping, m': Mapping) {
    && (forall k | k in m.forward :: k in m'.forward && m'.forward[k] == m.forward[k])
    && (forall p | p in m.reverse :: p in m'.reverse && m'.reverse[p] == m.reverse[p])
  }

  lemma ExtendsReflexive(m: Mapping)
    ensures Extends(m, m)
  {}

  lemma ExtendsTransitive(a: Mapping, b: Mapping, c: Mapping)
    requires Extends(a, b) && Extends(b, c)
    ensures Extends(a, c)
  {}

  lemma ExtendsForward(m: Mapping, m': Mapping, key: string)
    requires Extends(m, m') && key in m.forward
    ensures key in m'.forward && m'.forward[key] == m.forward[key]
  {}

  lemma EmptyIsGrown()
    ensures Grown(EMPTY)
  {}

  /** Only numbers up to the counter are in use: the next placeholder is new. */
  lemma NextIsFresh(m: Mapping, category: string)
    requires Grown(m) && category in NARROW_TYPES
    ensures Placeholder(category, Counter(m, category) + 1) !in m.reverse
  {
    var p := Placeholder(category, Counter(m, category) + 1);
    if Numbered(m, p) {
      var c: string, n: nat :| 1 <= n <= Counter(m, c) && p == Placeholder(c, n);
      NarrowTypeIsWide(c);
      NarrowTypeIsWide(category);
      PlaceholderInjective(c, n, category, Counter(m, category) + 1);
    }
  }

  lemma NumberedAfter(m: Mapping, m': Mapping, category: string)
    requires m'.counters == m.counters[category := Counter(m, category) + 1]
    ensures forall q :: Numbered(m', q) <==> Numbered(m, q) || q == Placeholder(category, Counter(m, category) + 1)
  {
    hide Placeholder;
    var next := Counter(m, category) + 1;
    forall q ensures Numbered(m', q) <==> Numbered(m, q) || q == Placeholder(category, next) {
      if Numbered(m, q) {
        var c: string, n: nat :| 1 <= n <= Counter(m, c) && q == Placeholder(c, n);
        assert 1 <= n <= Counter(m', c);
      }
      if q == Placeholder(category, next) { assert 1 <= next <= Counter(m', category); }
      if Numbered(m', q) && q != Placeholder(category, next) {
        var c: string, n: nat :| 1 <= n <= Counter(m', c) && q == Placeholder(c, n);
        assert 1 <= n <= Counter(m, c);
      }
    }
  }

  lemma IssueKeepsGrown(m: Mapping, d: Detection)
    requires Grown(m) && d.category in NARROW_TYPES
    ensures Grown(Issue(m, d).0) && Extends(m, Issue(m, d).0)
    ensures CacheKey(d) in Issue(m, d).0.forward && Issue(m, d).1 == Issue(m, d).0.forward[CacheKey(d)]
    ensures CacheKey(d) !in m.forward ==> Issue(m, d).1 !in m.reverse
  {
    if CacheKey(d) !in m.forward {
      NextIsFresh(m, d.category);
      AddKeepsGrown(m, CacheKey(d), d.category, d.surface);
    }
  }

  lemma AddKeepsGrown(m: Mapping, key: string, category: string, surface: string)
    requires Grown(m) && category in NARROW_TYPES && key !in m.forward
    requires Placeholder(category, Counter(m, category) + 1) !in m.reverse
    ensures var n := Counter(m, category) + 1;
      var p := Placeholder(category, n);
      Grown(Mapping(m.forward[key := p], m.reverse[p := surface], m.counters[category := n]))
  {
    var n := Counter(m, category) + 1;
    var p := Placeholder(category, n);
    var m' := Mapping(m.forward[key := p], m.reverse[p := surface], m.counters[category := n]);
    NumberedAfter(m, m', category);
    hide Placeholder, Numbered, Counter;
    assert forall q :: q in m'.reverse <==> q in m.reverse || q == p;
    assert forall q :: q in m'.reverse <==> Numbered(m', q);
    assert Injective(m'.forward) by {
      forall k, k' | k in m'.forward && k' in m'.forward && m'.forward[k] == m'.forward[k'] ensures k == k' {
        assert k != key ==> m.forward[k] in m.reverse;
        assert k' != key ==> m.forward[k'] in m.reverse;
      }
    }
  }

  lemma {:induction false} IssueAllKeepsGrown(m: Mapping, ds: seq<Detection>)
    requires Grown(m) && forall d | d in ds :: d.category in NARROW_TYPES
    ensures Grown(IssueAll(m, ds).0) && Extends(m, IssueAll(m, ds).0)
  {
    hide Grown, Issue, Extends;
    if ds == [] {
      ExtendsReflexive(m);
    } else {
      var n := |ds| - 1;
      var front := IssueAll(m, ds[..n]).0;
      assert ds[n] in ds;
      IssueAllKeepsGrown(m, ds[..n]);
      IssueKeepsGrown(front, ds[n]);
      ExtendsTransitive(m, front, Issue(front, ds[n]).0);
    }
  }

  /** Each detection got the placeholder that the final mapping holds for its key. */
  lemma {:induction false} IssuedIsForward(m: Mapping, ds: seq<Detection>, i: nat)
    requires Grown(m) && i < |ds| && forall d | d in ds :: d.category in NARROW_TYPES
    ensures var r := IssueAll(m, ds);
      CacheKey(ds[i]) in r.0.forward && r.1[i] == r.0.forward[CacheKey(ds[i])]
  {
    hide Grown, Issue, CacheKey, Extends;
    var n := |ds| - 1;
    var front := IssueAll(m, ds[..n]).0;
    assert ds[n] in ds;
    IssueAllKeepsGrown(m, ds[..n]);
    IssueKeepsGrown(front, ds[n]);
    if i < n {
      IssuedIsForward(m, ds[..n], i);
      ExtendsForward(front, Issue(front, ds[n]).0, CacheKey(ds[i]));
    }
  }

  lemma NumberOfEntry(m: Mapping, p: string) returns (c: string, n: nat)
    requires Grown(m) && p in m.reverse
    ensures c in NARROW_TYPES && 1 <= n <= Counter(m, c) && p == Placeholder(c, n)
  {
    hide Placeholder;
    c, n :| 1 <= n <= Counter(m, c) && p == Placeholder(c, n);
  }

  lemma GrownPlaceholders(m: Mapping)
    requires Grown(m)
    ensures forall p | p in m.reverse :: IsPlaceholder(Narrow, p)
  {
    forall p | p in m.reverse ensures IsPlaceholder(Narrow, p) {
      var c, n := NumberOfEntry(m, p);
      PlaceholderCut(Narrow, c, n);
    }
  }

  /** The indices issued for a type are exactly 1 up to its counter. */
  lemma IndicesContiguous(m: Mapping, category: string, n: nat)
    requires Grown(m) && category in NARROW_TYPES
    ensures Placeholder(category, n) in m.reverse <==> 1 <= n <= Counter(m, category)
  {
    if Placeholder(category, n) in m.reverse {
      var c: string, k: nat :| 1 <= k <= Counter(m, c) && Placeholder(category, n) == Placeholder(c, k);
      NarrowTypeIsWide(c);
      NarrowTypeIsWide(category);
      PlaceholderInjective(category, n, c, k);
    }
  }

  /** Two detections get the same placeholder exactly when their keys are equal. */
  lemma SamePlaceholderIffSameKey(m: Mapping, ds: seq<Detection>, i: nat, j: nat)
    requires Grown(m) && forall d | d in ds :: d.category in NARROW_TYPES
    requires i < |ds| && j < |ds|
    ensures IssueAll(m, ds).1[i] == IssueAll(m, ds).1[j] <==> CacheKey(ds[i]) == CacheKey(ds[j])
  {
    IssueAllKeepsGrown(m, ds);
    IssuedIsForward(m, ds, i);
    IssuedIsForward(m, ds, j);
  }

  // -------------------------------------------------------------- what a key restores to

  /** The surface of the first detection with this key. */
  function FirstSurface(ds: seq<Detection>, key: string): Option<string> {
    if ds == [] then None
    else
      var front := FirstSurface(ds[..|ds| - 1], key);
      if front.Some? then front
      else if CacheKey(ds[|ds| - 1]) == key then Some(ds[|ds| - 1].surface)
      else None
  }

  /** Whatever a key's placeholder restores to was recorded with the first detection of it. */
  lemma {:induction false} FirstSurfaceRecorded(ds: seq<Detection>, key: string)
    requires forall d | d in ds :: d.category in NARROW_TYPES
    ensures var m := IssueAll(EMPTY, ds).0;
      && (key in m.forward <==> FirstSurface(ds, key).Some?)
      && (key in m.forward ==> m.forward[key] in m.reverse
                               && m.reverse[m.forward[key]] == FirstSurface(ds, key).value)
  {
    if ds != [] {
      var n := |ds| - 1;
      var m := IssueAll(EMPTY, ds[..n]).0;
      assert ds[n] in ds;
      FirstSurfaceRecorded(ds[..n], key);
      EmptyIsGrown();
      IssueAllKeepsGrown(EMPTY, ds[..n]);
      IssueKeepsGrown(m, ds[n]);
      hide Grown, CacheKey, Placeholder;
    }
  }

  /** Every key restores to itself: so it is when detections are keyed by their surface. */
  ghost predicate Literal(m: Mapping) {
    forall k | k in m.forward :: m.forward[k] in m.reverse && m.reverse[m.forward[k]] == k
  }

  lemma {:induction false} IssueAllKeepsLiteral(m: Mapping, ds: seq<Detection>)
    requires Grown(m) && Literal(m)
    requires forall d | d in ds :: d.category in NARROW_TYPES && CacheKey(d) == d.surface
    ensures Literal(IssueAll(m, ds).0)
  {
    if ds != [] {
      var n := |ds| - 1;
      var front := IssueAll(m, ds[..n]).0;
      assert ds[n] in ds;
      IssueAllKeepsLiteral(m, ds[..n]);
      IssueAllKeepsGrown(m, ds[..n]);
      IssueKeepsGrown(front, ds[n]);
      hide Grown, CacheKey, Placeholder;
    }
  }

  // ------------------------------------------------------- a mapping read back from Redis

  /** What reading a reverse table back makes of it: the same table, each original leading to
      one of its placeholders, and no counters. */
  ghost predicate Reloaded(m: Mapping, reverse: map<string, string>) {
    && m.reverse == reverse && m.counters == map[]
    && m.forward.Keys == reverse.Values
    && forall v | v in m.forward :: m.forward[v] in reverse && reverse[m.forward[v]] == v
  }

  /** Numbering starts again: after a reload, masking one more span keeps every entry exactly
      when its key is one of the originals, its type had no number yet, or number 1 of its type
      happens to hold its surface. Freshness therefore needs a mapping grown from an empty one. */
  lemma ReloadedKeepsIff(m: Mapping, r: Mapping, d: Detection)
    requires Grown(m) && Reloaded(r, m.reverse) && d.category in NARROW_TYPES
    ensures (forall p | p in m.reverse :: p in Issue(r, d).0.reverse && Issue(r, d).0.reverse[p] == m.reverse[p])
       <==> (CacheKey(d) !in m.reverse.Values && Counter(m, d.category) >= 1 ==>
               m.reverse[Placeholder(d.category, 1)] == d.surface)
  {
    hide Grown, Issue, CacheKey, Placeholder;
    IndicesContiguous(m, d.category, 1);
    IssueReverse(r, d);
    var p := Placeholder(d.category, 1);
    assert p in m.reverse <==> Counter(m, d.category) >= 1;
    assert Counter(r, d.category) == 0 && r.reverse == m.reverse;
    assert CacheKey(d) in r.forward <==> CacheKey(d) in m.reverse.Values;
    hide *;
    OverwriteKeepsIff(m.reverse, p, d.surface);
  }

  lemma OverwriteKeepsIff(reverse: map<string, string>, p: string, s: string)
    ensures var after := reverse[p := s];
      (forall q | q in reverse :: q in after && after[q] == reverse[q]) <==> (p in reverse ==> reverse[p] == s)
  {}

  lemma IssueReverse(m: Mapping, d: Detection)
    ensures Issue(m, d).0.reverse ==
      if CacheKey(d) in m.forward then m.reverse
      else m.reverse[Placeholder(d.category, Counter(m, d.category) + 1) := d.surface]
  {}

  /** Detection `i` has a key that is not an original and that no earlier detection has. */
  ghost predicate NewKey(reverse: map<string, string>, ds: seq<Detection>, i: nat) {
    && i < |ds| && CacheKey(ds[i]) !in reverse.Values
    && forall j | 0 <= j < i :: CacheKey(ds[j]) != CacheKey(ds[i])
  }

  /** How many new keys come with a type. */
  ghost function NewCount(reverse: map<string, string>, ds: seq<Detection>, category: string): nat {
    if ds == [] then 0
    else
      var n := |ds| - 1;
      NewCount(reverse, ds[..n], category) + if NewKey(reverse, ds, n) && ds[n].category == category then 1 else 0
  }

  /** The placeholder that a new key gets: numbers start again with the new keys of its type. */
  ghost function NewPlaceholder(reverse: map<string, string>, ds: seq<Detection>, i: nat): string
    requires i < |ds|
  {
    Placeholder(ds[i].category, NewCount(reverse, ds[..i], ds[i].category) + 1)
  }

  ghost predicate FitsEntry(reverse: map<string, string>, ds: seq<Detection>, i: nat)
    requires i < |ds|
  {
    var p := NewPlaceholder(reverse, ds, i);
    p in reverse ==> reverse[p] == ds[i].surface
  }

  ghost predicate AllFit(reverse: map<string, string>, ds: seq<Detection>) {
    forall i: nat | i < |ds| && NewKey(reverse, ds, i) :: FitsEntry(reverse, ds, i)
  }

  ghost predicate KeepsAll(reverse: map<string, string>, m: Mapping) {
    forall p | p in reverse :: p in m.reverse && m.reverse[p] == reverse[p]
  }

  /** Numbers above the counters have not been touched. */
  ghost predicate UntouchedAbove(reverse: map<string, string>, m: Mapping) {
    forall c: string, n: nat | c in NARROW_TYPES && n > Counter(m, c) ::
      var p := Placeholder(c, n);
      (p in m.reverse <==> p in reverse) && (p in reverse ==> m.reverse[p] == reverse[p])
  }

  lemma {:induction false} ReloadedForward(r: Mapping, reverse: map<string, string>, ds: seq<Detection>, key: string)
    requires Reloaded(r, reverse)
    ensures key in IssueAll(r, ds).0.forward
      <==> key in reverse.Values || exists j | 0 <= j < |ds| :: CacheKey(ds[j]) == key
  {
    hide CacheKey;
    if ds != [] {
      var n := |ds| - 1;
      ReloadedForward(r, reverse, ds[..n], key);
      if j :| 0 <= j < |ds| && CacheKey(ds[j]) == key && j < n { assert CacheKey(ds[..n][j]) == key; }
      if j :| 0 <= j < n && CacheKey(ds[..n][j]) == key { assert CacheKey(ds[j]) == key; }
    }
  }

  lemma LastIsNewIff(r: Mapping, reverse: map<string, string>, ds: seq<Detection>, d: Detection)
    requires Reloaded(r, reverse)
    ensures NewKey(reverse, ds + [d], |ds|) <==> CacheKey(d) !in IssueAll(r, ds).0.forward
  {
    ReloadedForward(r, reverse, ds, CacheKey(d));
    hide CacheKey, IssueAll;
    var all := ds + [d];
    assert forall j | 0 <= j < |ds| :: all[j] == ds[j];
    assert all[|ds|] == d;
  }

  lemma {:induction false} ReloadedCounter(r: Mapping, reverse: map<string, string>, ds: seq<Detection>,
                                           category: string)
    requires Reloaded(r, reverse)
    ensures Counter(IssueAll(r, ds).0, category) == NewCount(reverse, ds, category)
  {
    if ds != [] {
      var n := |ds| - 1;
      ReloadedCounter(r, reverse, ds[..n], category);
      LastIsNewIff(r, reverse, ds[..n], ds[n]);
      assert ds[..n] + [ds[n]] == ds;
      hide NewKey, CacheKey, Placeholder;
    }
  }

  lemma {:induction false} ReloadedAbove(r: Mapping, reverse: map<string, string>, ds: seq<Detection>)
    requires Reloaded(r, reverse) && forall d | d in ds :: d.category in NARROW_TYPES
    ensures UntouchedAbove(reverse, IssueAll(r, ds).0)
  {
    if ds != [] {
      var n := |ds| - 1;
      assert ds[n] in ds;
      ReloadedAbove(r, reverse, ds[..n]);
      IssueAbove(reverse, IssueAll(r, ds[..n]).0, ds[n]);
    }
  }

  lemma IssueAbove(reverse: map<string, string>, m: Mapping, d: Detection)
    requires UntouchedAbove(reverse, m) && d.category in NARROW_TYPES
    ensures UntouchedAbove(reverse, Issue(m, d).0)
  {
    var m', next := Issue(m, d).0, Counter(m, d.category) + 1;
    IssueReverse(m, d);
    forall c: string, n: nat | c in NARROW_TYPES && n > Counter(m', c)
      ensures n > Counter(m, c)
      ensures CacheKey(d) !in m.forward ==> Placeholder(c, n) != Placeholder(d.category, next)
    {
      NarrowTypeIsWide(c);
      NarrowTypeIsWide(d.category);
      if CacheKey(d) !in m.forward && Placeholder(c, n) == Placeholder(d.category, next) {
        PlaceholderInjective(c, n, d.category, next);
      }
    }
    hide Issue, Placeholder, CacheKey, Counter;
  }

  lemma AllFitSnoc(reverse: map<string, string>, ds: seq<Detection>, d: Detection)
    ensures var all, n := ds + [d], |ds|;
      && NewPlaceholder(reverse, all, n) == Placeholder(d.category, NewCount(reverse, ds, d.category) + 1)
      && (AllFit(reverse, all) <==> AllFit(reverse, ds) && (NewKey(reverse, all, n) ==> FitsEntry(reverse, all, n)))
  {
    hide CacheKey, Placeholder, NewCount;
    var all, n := ds + [d], |ds|;
    assert all[..n] == ds;
    forall i: nat | i < n
      ensures NewKey(reverse, all, i) <==> NewKey(reverse, ds, i)
      ensures FitsEntry(reverse, all, i) <==> FitsEntry(reverse, ds, i)
    {
      assert all[..i] == ds[..i] && all[i] == ds[i];
      assert forall j | 0 <= j < i :: all[j] == ds[j];
    }
    hide NewKey, FitsEntry;
  }

  lemma KeepsStep(reverse: map<string, string>, m: Mapping, d: Detection)
    requires UntouchedAbove(reverse, m) && d.category in NARROW_TYPES
    ensures var p := Placeholder(d.category, Counter(m, d.category) + 1);
      KeepsAll(reverse, Issue(m, d).0) <==>
        KeepsAll(reverse, m) && (CacheKey(d) !in m.forward && p in reverse ==> reverse[p] == d.surface)
  {
    IssueReverse(m, d);
    var p := Placeholder(d.category, Counter(m, d.category) + 1);
    assert p in reverse ==> p in m.reverse && m.reverse[p] == reverse[p];
    hide Issue, Placeholder, CacheKey, Counter, UntouchedAbove;
  }

  /** So for any list of spans: after a reload masking them keeps every entry exactly when each
      new key gets a number that is unused or already holds its surface. */
  lemma {:induction false} ReloadedAllKeepIff(r: Mapping, reverse: map<string, string>, ds: seq<Detection>)
    requires Reloaded(r, reverse) && forall d | d in ds :: d.category in NARROW_TYPES
    ensures KeepsAll(reverse, IssueAll(r, ds).0) <==> AllFit(reverse, ds)
  {
    if ds == [] {
      assert IssueAll(r, ds).0 == r;
    } else {
      var n := |ds| - 1;
      var front, d := ds[..n], ds[n];
      assert d in ds && front + [d] == ds;
      ReloadedAllKeepIff(r, reverse, front);
      ReloadedAbove(r, reverse, front);
      ReloadedCounter(r, reverse, front, d.category);
      LastIsNewIff(r, reverse, front, d);
      AllFitSnoc(reverse, front, d);
      IssueAllSnoc(r, front, d);
      hide IssueAll, Issue, Placeholder, CacheKey, Counter, NewKey, KeepsAll, AllFit, UntouchedAbove;
      hide NewCount, Reloaded;
      KeepsStep(reverse, IssueAll(r, front).0, d);
    }
  }

  /** A name that was masked before the reload can take another's place: with `Петров` and then
      `Иванову`, keyed by `Иванов`, masking `Иванову` again gives it the placeholder of `Петров`. */
  lemma ReloadedNameTakesAnothersPlace(r: Mapping, a: Detection, b: Detection)
    requires a.category == b.category == "NAME"
    requires a.surface == "Петров" && a.normalized == Some("Петров")
    requires b.surface == "Иванову" && b.normalized == Some("Иванов")
    requires Reloaded(r, IssueAll(EMPTY, [a, b]).0.reverse)
    ensures IssueAll(EMPTY, [a, b]).0.reverse == map["<NAME_1>" := "Петров", "<NAME_2>" := "Иванову"]
    ensures IssueAll(EMPTY, [a, b]).1[1] == "<NAME_2>"
    ensures Issue(r, b).1 == "<NAME_1>" && Issue(r, b).0.reverse["<NAME_1>"] == "Иванову"
  {
    assert [a, b][..1] == [a] && [a][..0] == [];
    assert Placeholder("NAME", 1) == "<NAME_1>" && Placeholder("NAME", 2) == "<NAME_2>";
    hide Placeholder;
    assert IssueAll(EMPTY, [a]).0 == Issue(EMPTY, a).0;
    var reverse := IssueAll(EMPTY, [a, b]).0.reverse;
    assert reverse == map["<NAME_1>" := "Петров", "<NAME_2>" := "Иванову"];
    assert "Иванов" !in reverse.Values;
  }
}
