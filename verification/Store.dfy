/** The per-workspace mapping table (`mapping_store.py`): encryption is reduced to the key a
    row was written under, which must be the store's own for the row to be readable. */
module Store {
  import opened Text

  datatype Row = Row(original: string, category: string, session: string, subject: string, key: nat)

  type Table = map<string, Row>

  /** `get`: `None`, `MappingDecryptError`, or the original. */
  datatype Lookup = NoRow | Unreadable | Found(original: string)

  function Read(t: Table, key: nat, placeholder: string): Lookup {
    if placeholder !in t then NoRow
    else if t[placeholder].key != key then Unreadable
    else Found(t[placeholder].original)
  }

  /** The rows that can be read, as placeholder to original. */
  function Readable(t: Table, key: nat): map<string, string> {
    map p | p in t && t[p].key == key :: t[p].original
  }

  /** Exactly the rows written under the key are readable, each as its original. */
  lemma ReadableRows(t: Table, key: nat, p: string)
    ensures p in Readable(t, key) <==> p in t && t[p].key == key
    ensures p in Readable(t, key) ==> Readable(t, key)[p] == t[p].original
  {}

  lemma ReadIsReadable(t: Table, key: nat, p: string)
    ensures Read(t, key, p).Found? <==> p in Readable(t, key)
    ensures Read(t, key, p).Found? ==> Read(t, key, p).original == Readable(t, key)[p]
  {}

  /** Arguments of `purge`. */
  datatype Scope = Scope(scope: string, session: Option<string>, subject: Option<string>)

  predicate ValidScope(s: Scope) {
    s.scope == "all" || (s.scope == "session" && s.session.Some?) || (s.scope == "subject" && s.subject.Some?)
  }

  predicate Covers(s: Scope, r: Row) {
    s.scope == "all"
    || (s.scope == "session" && s.session == Some(r.session))
    || (s.scope == "subject" && s.subject == Some(r.subject))
  }

  function Purged(t: Table, s: Scope): Table {
    map p | p in t && !Covers(s, t[p]) :: t[p]
  }

  /** A row stays exactly when the scope is not everything, nor its session, nor its subject. */
  lemma PurgedRows(t: Table, s: Scope, p: string)
    ensures p in Purged(t, s) <==>
      && p in t
      && s.scope != "all"
      && !(s.scope == "session" && s.session == Some(t[p].session))
      && !(s.scope == "subject" && s.subject == Some(t[p].subject))
    ensures p in Purged(t, s) ==> Purged(t, s)[p] == t[p]
  {}

  /** `purge` returns the number of rows deleted, or raises `ValueError`. */
  datatype PurgeResult = Deleted(count: nat) | ValueError

  function RowsOf(t: Table, category: string): set<string> {
    set p | p in t && t[p].category == category
  }

  /** The number of rows of each category that occurs. */
  function StatsOf(t: Table): map<string, nat> {
    map c | c in (set p | p in t :: t[p].category) :: |RowsOf(t, c)|
  }

  class MappingStore {
    var table: Table
    const key: nat

    constructor (table: Table, key: nat)
      ensures this.table == table && this.key == key
    {
      this.table := table;
      this.key := key;
    }

    /** INSERT OR REPLACE, under the store's key. */
    method Put(placeholder: string, original: string, category: string, session: string, subject: string)
      modifies this
      ensures table == old(table)[placeholder := Row(original, category, session, subject, key)]
    {
      table := table[placeholder := Row(original, category, session, subject, key)];
    }

    method Get(placeholder: string) returns (r: Lookup)
      ensures r == Read(table, key, placeholder)
      ensures r.NoRow? <==> placeholder !in table
      ensures r.Found? <==> placeholder in table && table[placeholder].key == key
      ensures r.Found? ==> r.original == table[placeholder].original
    {
      if placeholder !in table {
        return NoRow;
      }
      if table[placeholder].key != key {
        return Unreadable;
      }
      return Found(table[placeholder].original);
    }

    method Stats() returns (counts: map<string, nat>)
      ensures counts == StatsOf(table)
      ensures forall c :: c in counts <==> exists p :: p in table && table[p].category == c
      ensures forall c | c in counts :: counts[c] == |set p | p in table && table[p].category == c|
      ensures SumValues(counts) == Total()
    {
      StatsSumToTotal(table);
      return StatsOf(table);
    }

    function Total(): nat
      reads this
    {
      |table|
    }

    method Purge(scope: Scope) returns (r: PurgeResult)
      modifies this
      ensures r.ValueError? <==> !ValidScope(scope)
      ensures r.ValueError? <==>
        && scope.scope != "all"
        && !(scope.scope == "session" && scope.session.Some?)
        && !(scope.scope == "subject" && scope.subject.Some?)
      ensures r.ValueError? ==> table == old(table)
      ensures r.Deleted? ==> table == Purged(old(table), scope) && Total() + r.count == old(Total())
      ensures r.Deleted? ==> forall p :: p in table <==>
        && p in old(table)
        && scope.scope != "all"
        && !(scope.scope == "session" && scope.session == Some(old(table)[p].session))
        && !(scope.scope == "subject" && scope.subject == Some(old(table)[p].subject))
      ensures forall p | p in table :: p in old(table) && table[p] == old(table)[p]
    {
      if scope.scope == "all" {
        r := Deleted(|table|);
        table := map[];
        assert table == Purged(old(table), scope);
      } else if scope.scope == "session" || scope.scope == "subject" {
        if !ValidScope(scope) {
          return ValueError;
        }
        var doomed := set p | p in table && Covers(scope, table[p]);
        r := Deleted(|doomed|);
        table := table - doomed;
        assert table == Purged(old(table), scope);
        assert table.Keys == old(table).Keys - doomed;
      } else {
        return ValueError;
      }
    }
  }

  // ------------------------------------------------------------------------ statistics

  ghost function SumValues(m: map<string, nat>): nat
    decreases |m|
  {
    if m == map[] then 0
    else
      var k :| k in m;
      KeysRemoved(m, k);
      m[k] + SumValues(m - {k})
  }

  lemma KeysRemoved(m: map<string, nat>, k: string)
    requires k in m
    ensures |m - {k}| == |m| - 1
  {
    assert (m - {k}).Keys == m.Keys - {k};
  }

  lemma {:induction false} SumWithout(m: map<string, nat>, k: string)
    requires k in m
    ensures SumValues(m) == m[k] + SumValues(m - {k})
    decreases |m|
  {
    var j :| j in m && SumValues(m) == m[j] + SumValues(m - {j});
    KeysRemoved(m, j);
    KeysRemoved(m, k);
    if j != k {
      SumWithout(m - {j}, k);
      SumWithout(m - {k}, j);
      assert m - {j} - {k} == m - {k} - {j};
    }
  }

  /** The counts per category always sum to the total. */
  lemma {:induction false} StatsSumToTotal(t: Table)
    ensures SumValues(StatsOf(t)) == |t|
    decreases |t|
  {
    if p :| p in t {
      var c := t[p].category;
      var rest := t - RowsOf(t, c);
      assert rest.Keys == t.Keys - RowsOf(t, c);
      assert p in RowsOf(t, c);
      assert |rest| == |t| - |RowsOf(t, c)|;
      StatsSumToTotal(rest);
      StatsWithout(t, c);
      SumWithout(StatsOf(t), c);
    } else {
      assert StatsOf(t) == map[];
    }
  }

  lemma StatsWithout(t: Table, c: string)
    requires c in StatsOf(t)
    ensures StatsOf(t - RowsOf(t, c)) == StatsOf(t) - {c}
  {
    var rest := t - RowsOf(t, c);
    forall d | d != c ensures RowsOf(rest, d) == RowsOf(t, d) {}
    forall d ensures d in StatsOf(rest) <==> d in StatsOf(t) && d != c {
      if d in StatsOf(t) && d != c {
        var p :| p in t && t[p].category == d;
        assert p in rest;
      }
    }
  }
}
