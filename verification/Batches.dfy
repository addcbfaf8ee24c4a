/** Batching translation items and translating a batch with retries and timeout splits
    (`estimateBatchChars`, `buildTranslationBatches` and `translateBatch` of
    `scripts/control-ui-i18n.ts`). */
module Batches {
  import opened Text

  const MAX_BATCH_ITEMS: nat := 20
  const TRANSLATE_MAX_ATTEMPTS: nat := 2

  datatype Item = Item(cacheKey: string, key: string, text: string, textHash: string)

  /** The length of keys and texts, and 8 per item, and 2 once. */
  function EstimateBatchChars(items: seq<Item>): nat {
    if items == [] then 2
    else
      var last := items[|items| - 1];
      EstimateBatchChars(items[..|items| - 1]) + |last.key| + |last.text| + 8
  }

  // ---------------------------------------------------------------------- building batches

  function ItemChars(item: Item): nat {
    EstimateBatchChars([item])
  }

  /** The running count of a batch: each item's own estimate, and 2 to begin with. */
  function Running(batch: seq<Item>): nat {
    if batch == [] then 2 else Running(batch[..|batch| - 1]) + ItemChars(batch[|batch| - 1])
  }

  function Concatenated(batches: seq<seq<Item>>): seq<Item> {
    if batches == [] then [] else Concatenated(batches[..|batches| - 1]) + batches[|batches| - 1]
  }

  /** No item was added to the batch that would have overflowed it. */
  predicate Fits(batch: seq<Item>, budget: real) {
    && 0 < |batch| <= MAX_BATCH_ITEMS
    && (|batch| > 1 ==> Running(batch) as real <= budget)
  }

  /** The item that follows a batch did not fit into it. */
  predicate Closed(batch: seq<Item>, next: Item, budget: real) {
    |batch| == MAX_BATCH_ITEMS || (Running(batch) + ItemChars(next)) as real > budget
  }

  /** What batching promises: the items in order, in batches that fit and could not be longer. */
  ghost predicate GreedyBatches(items: seq<Item>, batches: seq<seq<Item>>, budget: real) {
    Concatenated(batches) == items && Chained(batches, budget)
  }

  ghost predicate Chained(batches: seq<seq<Item>>, budget: real) {
    && (forall i | 0 <= i < |batches| :: Fits(batches[i], budget))
    && (forall i | 0 <= i < |batches| - 1 :: Closed(batches[i], batches[i + 1][0], budget))
  }

  lemma ChainNext(batches: seq<seq<Item>>, next: seq<Item>, budget: real)
    requires Chained(batches, budget) && Fits(next, budget)
    requires batches != [] ==> Closed(batches[|batches| - 1], next[0], budget)
    ensures Chained(batches + [next], budget)
  {
    hide Fits, Closed;
    var all := batches + [next];
    assert forall i | 0 <= i < |batches| :: all[i] == batches[i];
  }

  lemma ChainExtended(batches: seq<seq<Item>>, last: seq<Item>, longer: seq<Item>, budget: real)
    requires Chained(batches + [last], budget) && Fits(longer, budget) && last != [] && last[0] == longer[0]
    ensures Chained(batches + [longer], budget)
  {
    hide Running, ItemChars;
    var old', new' := batches + [last], batches + [longer];
    forall i | 0 <= i < |new'| ensures Fits(new'[i], budget) { assert Fits(old'[i], budget); }
    forall i | 0 <= i < |new'| - 1 ensures Closed(new'[i], new'[i + 1][0], budget) {
      assert Closed(old'[i], old'[i + 1][0], budget);
    }
  }

  method BuildTranslationBatches(items: seq<Item>, budget: real) returns (batches: seq<seq<Item>>)
    ensures GreedyBatches(items, batches, budget)
  {
    batches := [];
    var current: seq<Item> := [];
    var currentChars := 2;
    BatchStart(items, budget);
    for i := 0 to |items|
      invariant BatchedSoFar(items, i, batches, current, budget)
      invariant currentChars == Running(current)
    {
      var item := items[i];
      var itemChars := EstimateBatchChars([item]);
      var wouldOverflow := |current| > 0 && (currentChars + itemChars) as real > budget;
      var reachedMaxItems := |current| >= MAX_BATCH_ITEMS;
      BatchStep(items, i, batches, current, budget);
      if wouldOverflow || reachedMaxItems {
        batches := batches + [current];
        current := [];
        currentChars := 2;
      }
      RunningSnoc(current, item);
      current := current + [item];
      currentChars := currentChars + itemChars;
    }
    BatchEnd(items, batches, current, budget);
    if |current| > 0 {
      batches := batches + [current];
    }
  }

  lemma RunningSnoc(batch: seq<Item>, item: Item)
    ensures Running(batch + [item]) == Running(batch) + ItemChars(item)
  {
    assert (batch + [item])[..|batch|] == batch;
  }

  lemma ConcatenatedSnoc(batches: seq<seq<Item>>, last: seq<Item>)
    ensures Concatenated(batches + [last]) == Concatenated(batches) + last
  {
    assert (batches + [last])[..|batches|] == batches;
  }

  /** The first `i` items are in closed batches and in the current one, which is empty only
      before the first item. */
  ghost predicate BatchedSoFar(items: seq<Item>, i: nat, batches: seq<seq<Item>>, current: seq<Item>, budget: real) {
    && i <= |items| && Concatenated(batches) + current == items[..i]
    && (if i == 0 then batches == [] && current == []
        else current != [] && GreedyBatches(items[..i], batches + [current], budget))
  }

  lemma BatchStart(items: seq<Item>, budget: real)
    ensures BatchedSoFar(items, 0, [], [], budget)
  {
    assert items[..0] == [];
  }

  predicate Overflows(current: seq<Item>, item: Item, budget: real) {
    |current| > 0 && ((Running(current) + ItemChars(item)) as real > budget || |current| >= MAX_BATCH_ITEMS)
  }

  lemma BatchStep(items: seq<Item>, i: nat, batches: seq<seq<Item>>, current: seq<Item>, budget: real)
    requires BatchedSoFar(items, i, batches, current, budget) && i < |items|
    ensures Overflows(current, items[i], budget) ==>
      BatchedSoFar(items, i + 1, batches + [current], [items[i]], budget)
    ensures !Overflows(current, items[i], budget) ==>
      BatchedSoFar(items, i + 1, batches, current + [items[i]], budget)
  {
    var item := items[i];
    assert items[..i + 1] == items[..i] + [item];
    FitsOne(item, budget);
    if i == 0 {
      ChainEmpty(budget);
      ChainNext([], [item], budget);
      assert [] + [[item]] == [[item]] && [[item]][..0] == [];
      assert [] + [item] == [item];
    } else {
      LastFits(batches, current, budget);
      if Overflows(current, item, budget) {
        CloseStep(items[..i], batches, current, item, budget);
      } else {
        GrowStep(items[..i], batches, current, item, budget);
      }
    }
  }

  lemma CloseStep(done: seq<Item>, batches: seq<seq<Item>>, current: seq<Item>, item: Item, budget: real)
    requires GreedyBatches(done, batches + [current], budget) && Overflows(current, item, budget)
    ensures GreedyBatches(done + [item], batches + [current] + [[item]], budget)
  {
    LastFits(batches, current, budget);
    FitsOne(item, budget);
    hide Fits, Running, ItemChars, Concatenated, Chained;
    FitsAtMost(current, budget);
    ConcatenatedSnoc(batches + [current], [item]);
    ChainNext(batches + [current], [item], budget);
  }

  lemma GrowStep(done: seq<Item>, batches: seq<seq<Item>>, current: seq<Item>, item: Item, budget: real)
    requires GreedyBatches(done, batches + [current], budget) && !Overflows(current, item, budget) && current != []
    ensures GreedyBatches(done + [item], batches + [current + [item]], budget)
    ensures Concatenated(batches) + (current + [item]) == done + [item]
  {
    FitsMore(current, item, budget);
    hide Fits, Running, ItemChars, Concatenated, Chained;
    ConcatenatedSnoc(batches, current);
    ConcatenatedSnoc(batches, current + [item]);
    ChainExtended(batches, current, current + [item], budget);
    assert Concatenated(batches) + (current + [item]) == (Concatenated(batches) + current) + [item];
  }

  lemma ChainEmpty(budget: real)
    ensures Chained([], budget)
  {}

  lemma FitsOne(item: Item, budget: real)
    ensures Fits([item], budget)
  {}

  lemma FitsAtMost(batch: seq<Item>, budget: real)
    requires Fits(batch, budget)
    ensures |batch| <= MAX_BATCH_ITEMS
  {}

  lemma FitsMore(batch: seq<Item>, item: Item, budget: real)
    requires |batch| < MAX_BATCH_ITEMS && (Running(batch) + ItemChars(item)) as real <= budget
    ensures Fits(batch + [item], budget)
  {
    RunningSnoc(batch, item);
  }

  lemma LastFits(batches: seq<seq<Item>>, last: seq<Item>, budget: real)
    requires Chained(batches + [last], budget)
    ensures Fits(last, budget)
  {
    assert (batches + [last])[|batches|] == last;
  }

  lemma BatchEnd(items: seq<Item>, batches: seq<seq<Item>>, current: seq<Item>, budget: real)
    requires BatchedSoFar(items, |items|, batches, current, budget)
    ensures GreedyBatches(items, if |current| > 0 then batches + [current] else batches, budget)
  {
    assert items[..|items|] == items;
  }

  /** The running count of a batch is 2 per item above its estimate. */
  lemma {:induction false} RunningIsEstimate(batch: seq<Item>)
    ensures Running(batch) == EstimateBatchChars(batch) + 2 * |batch|
  {
    if batch != [] {
      var front, last := batch[..|batch| - 1], batch[|batch| - 1];
      RunningIsEstimate(front);
      assert [last][..0] == [] && EstimateBatchChars([]) == 2;
      assert ItemChars(last) == |last.key| + |last.text| + 10;
      assert EstimateBatchChars(batch) == EstimateBatchChars(front) + |last.key| + |last.text| + 8;
      assert Running(batch) == Running(front) + ItemChars(last);
    }
  }

  /** A batch is closed although by the estimate it had room for the next item, exactly when
      the estimate misses the budget by less than that. */
  lemma ClosedEarlyIff(batch: seq<Item>, next: Item, budget: real)
    requires |batch| < MAX_BATCH_ITEMS
    ensures var estimate := EstimateBatchChars(batch + [next]);
      Closed(batch, next, budget) && estimate as real <= budget
      <==> estimate as real <= budget < (estimate + 2 * (|batch| + 1)) as real
  {
    RunningIsEstimate(batch + [next]);
    RunningSnoc(batch, next);
  }

  /** It happens under the default budget: two items estimated at 1998 together become two
      batches. */
  lemma TwoBatchesForOne(a: Item, b: Item)
    requires a.key == "a" && b.key == "b" && |a.text| == |b.text| == 989
    ensures EstimateBatchChars([]) == 2 && EstimateBatchChars([a]) == 1000 && EstimateBatchChars([a, b]) == 1998
    ensures GreedyBatches([a, b], [[a], [b]], 2000.0)
  {
    assert [a, b][..1] == [a] && [a][..0] == [] && [b][..0] == [];
    assert EstimateBatchChars([a]) == 1000 && EstimateBatchChars([b]) == 1000;
    assert [[a], [b]][..1] == [[a]] && [[a]][..0] == [];
    assert Concatenated([[a]]) == [a] && Concatenated([[a], [b]]) == [a] + [b] == [a, b];
    assert Running([a]) == 1002 && Closed([a], b, 2000.0);
    hide Running, ItemChars;
    FitsOne(a, 2000.0);
    FitsOne(b, 2000.0);
  }

  /** Every batch is non-empty, has at most 20 items, and its estimate is within the budget
      unless it is a single item. */
  lemma BatchesWithinBudget(items: seq<Item>, batches: seq<seq<Item>>, budget: real, i: nat)
    requires GreedyBatches(items, batches, budget) && i < |batches|
    ensures 0 < |batches[i]| <= 20
    ensures |batches[i]| == 1 || EstimateBatchChars(batches[i]) as real <= budget
    ensures |batches[i]| == 1 || (EstimateBatchChars(batches[i]) + 2 * |batches[i]|) as real <= budget
  {
    RunningIsEstimate(batches[i]);
  }

  lemma {:induction false} RunningGrows(batch: seq<Item>, n: nat)
    requires n < |batch|
    ensures Running(batch[..n]) + ItemChars(batch[n]) <= Running(batch)
    decreases |batch| - n
  {
    var front := batch[..|batch| - 1];
    if n < |batch| - 1 {
      RunningGrows(front, n);
      assert front[..n] == batch[..n] && front[n] == batch[n];
    }
  }

  lemma {:induction false} ConcatenatedFirst(batches: seq<seq<Item>>)
    requires batches != []
    ensures Concatenated(batches) == batches[0] + Concatenated(batches[1..])
  {
    var n := |batches| - 1;
    if n == 0 {
      assert batches[..0] == [];
    } else {
      ConcatenatedFirst(batches[..n]);
      assert batches[..n][1..] == batches[1..][..n - 1];
    }
  }

  lemma FirstNotEmpty(batches: seq<seq<Item>>, budget: real)
    requires batches != [] && Fits(batches[0], budget)
    ensures Concatenated(batches) != []
  {
    ConcatenatedFirst(batches);
  }

  /** Those properties leave no choice: there is one batching that has them. */
  lemma {:induction false} BatchingUnique(items: seq<Item>, a: seq<seq<Item>>, b: seq<seq<Item>>, budget: real)
    requires GreedyBatches(items, a, budget) && GreedyBatches(items, b, budget)
    ensures a == b
    decreases |a|
  {
    if a == [] || b == [] {
      if a != [] { FirstNotEmpty(a, budget); }
      if b != [] { FirstNotEmpty(b, budget); }
    } else {
      ConcatenatedFirst(a);
      ConcatenatedFirst(b);
      assert Fits(a[0], budget) && Fits(b[0], budget);
      NotShorter(items, a, b, budget);
      NotShorter(items, b, a, budget);
      assert a[0] == items[..|a[0]|] == b[0];
      var rest := items[|a[0]|..];
      assert Concatenated(a[1..]) == rest == Concatenated(b[1..]);
      BatchingUnique(rest, a[1..], b[1..], budget);
      assert a == [a[0]] + a[1..] && b == [b[0]] + b[1..];
    }
  }

  /** A first batch that stops earlier would have had room for the next item. */
  lemma NotShorter(items: seq<Item>, a: seq<seq<Item>>, b: seq<seq<Item>>, budget: real)
    requires GreedyBatches(items, a, budget) && GreedyBatches(items, b, budget) && a != [] && b != []
    ensures |a[0]| >= |b[0]|
  {
    ConcatenatedFirst(a);
    ConcatenatedFirst(b);
    var n := |a[0]|;
    assert a[0] == items[..n] && b[0] == items[..|b[0]|];
    assert Fits(a[0], budget) && Fits(b[0], budget);
    assert |a| == 1 ==> Concatenated(a[1..]) == [];
    if n < |b[0]| {
      if |a| > 1 {
        ConcatenatedFirst(a[1..]);
        assert Fits(a[1], budget) && Closed(a[0], a[1][0], budget);
        assert a[1][0] == items[n] == b[0][n];
        assert b[0][..n] == a[0];
        RunningGrows(b[0], n);
      }
    }
  }

  /** A batch is followed by another only when it has 20 items, or the next item would take its
      estimate, with 2 more per item, over the budget. */
  lemma BatchesFull(items: seq<Item>, batches: seq<seq<Item>>, budget: real, i: nat)
    requires GreedyBatches(items, batches, budget) && i + 1 < |batches|
    ensures batches[i + 1] != []
    ensures var more := batches[i] + [batches[i + 1][0]];
      |batches[i]| == 20 || (EstimateBatchChars(more) + 2 * |more|) as real > budget
  {
    assert Fits(batches[i + 1], budget) && Closed(batches[i], batches[i + 1][0], budget);
    RunningSnoc(batches[i], batches[i + 1][0]);
    RunningIsEstimate(batches[i] + [batches[i + 1][0]]);
  }

  // --------------------------------------------------------------------- translating a batch

  /** A member of the parsed reply. */
  datatype Member = Str(s: string) | NotString

  /** What one prompt comes to: a parsed object, or an error that timed out or not. */
  datatype Reply = Parsed(members: map<string, Member>) | Failed(timedOut: bool)

  datatype Outcome = Done(translated: map<string, string>) | Thrown

  function KeysOf(items: seq<Item>): set<string> {
    set i | 0 <= i < |items| :: items[i].key
  }

  /** A usable member for a key: a string that is not blank. */
  predicate Usable(r: Reply, key: string) {
    r.Parsed? && key in r.members && r.members[key].Str? && Trim(r.members[key].s) != ""
  }

  /** All translations of one reply, or an error and whether it counts as a timeout. */
  datatype Reading = All(translated: map<string, string>) | Missing(timedOut: bool)

  /** What every prompt will answer; and which keys, missing from a reply, make the error look
      like a timeout, since its text holds the key. */
  datatype Provider = Provider(script: nat -> Reply, namesTimeout: string -> bool)

  /** The client: what every prompt will answer, and how many were sent. */
  class Client {
    const provider: Provider
    var prompts: nat

    constructor (provider: Provider)
      ensures this.provider == provider && prompts == 0
    {
      this.provider := provider;
      prompts := 0;
    }

    method Prompt() returns (r: Reply)
      modifies this
      ensures r == provider.script(old(prompts)) && prompts == old(prompts) + 1
    {
      r := provider.script(prompts);
      prompts := prompts + 1;
    }
  }

  /** What reading the first `n` items of a reply comes to. */
  function Read(p: Provider, reply: Reply, items: seq<Item>, n: nat): Reading
    requires n <= |items|
  {
    if reply.Failed? then Missing(reply.timedOut)
    else if n == 0 then All(map[])
    else
      match Read(p, reply, items, n - 1)
      case Missing(timedOut) => Missing(timedOut)
      case All(m) =>
        var key := items[n - 1].key;
        if Usable(reply, key) then All(m[key := reply.members[key].s]) else Missing(p.namesTimeout(key))
  }

  function Halfway(items: seq<Item>): nat {
    (|items| + 1) / 2
  }

  /** The outcome of a batch whose next prompt is number `c`, and the number of the first
      prompt after it. */
  function Translated(p: Provider, c: nat, items: seq<Item>, attempt: nat): (Outcome, nat)
    requires attempt < TRANSLATE_MAX_ATTEMPTS
    decreases |items|, TRANSLATE_MAX_ATTEMPTS - attempt
  {
    match Read(p, p.script(c), items, |items|)
    case All(m) => (Done(m), c + 1)
    case Missing(timedOut) =>
      if timedOut && |items| > 1 then
        var left := Translated(p, c + 1, items[..Halfway(items)], 0);
        if left.0.Thrown? then left
        else
          var right := Translated(p, left.1, items[Halfway(items)..], 0);
          if right.0.Thrown? then right else (Done(left.0.translated + right.0.translated), right.1)
      else if timedOut || attempt + 1 == TRANSLATE_MAX_ATTEMPTS then (Thrown, c + 1)
      else Translated(p, c + 1, items, attempt + 1)
  }

  method TranslateBatch(client: Client, items: seq<Item>) returns (r: Outcome)
    modifies client
    ensures (r, client.prompts) == Translated(client.provider, old(client.prompts), items, 0)
    decreases |items|
  {
    hide Read;
    ghost var start := client.prompts;
    var attempt := 0;
    while attempt < TRANSLATE_MAX_ATTEMPTS
      invariant 0 <= attempt <= TRANSLATE_MAX_ATTEMPTS && client.prompts == start + attempt
      invariant attempt < TRANSLATE_MAX_ATTEMPTS ==>
        Translated(client.provider, start, items, 0) == Translated(client.provider, start + attempt, items, attempt)
      invariant attempt == TRANSLATE_MAX_ATTEMPTS ==>
        Translated(client.provider, start, items, 0) == (Thrown, client.prompts)
    {
      var reply := client.Prompt();
      var reading := ReadReply(client.provider, reply, items);
      if reading.All? {
        return Done(reading.translated);
      }
      if reading.timedOut && |items| > 1 {
        var midpoint := (|items| + 1) / 2;
        var left := TranslateBatch(client, items[..midpoint]);
        if left.Thrown? {
          return Thrown;
        }
        var right := TranslateBatch(client, items[midpoint..]);
        if right.Thrown? {
          return Thrown;
        }
        return Done(left.translated + right.translated);
      }
      if reading.timedOut {
        break;
      }
      attempt := attempt + 1;
    }
    return Thrown;
  }

  /** The loop over the items of one reply. */
  method ReadReply(p: Provider, reply: Reply, items: seq<Item>) returns (r: Reading)
    ensures r == Read(p, reply, items, |items|)
  {
    hide Trim;
    if reply.Failed? {
      return Missing(reply.timedOut);
    }
    var translated: map<string, string> := map[];
    for i := 0 to |items|
      invariant Read(p, reply, items, i) == All(translated)
    {
      var key := items[i].key;
      if key !in reply.members || !reply.members[key].Str? || Trim(reply.members[key].s) == "" {
        MissingStays(p, reply, items, i + 1, |items|);
        return Missing(p.namesTimeout(key));
      }
      translated := translated[key := reply.members[key].s];
    }
    return All(translated);
  }

  lemma {:induction false} MissingStays(p: Provider, reply: Reply, items: seq<Item>, i: nat, n: nat)
    requires i <= n <= |items| && Read(p, reply, items, i).Missing?
    ensures Read(p, reply, items, n) == Read(p, reply, items, i)
  {
    if i < n {
      MissingStays(p, reply, items, i, n - 1);
    }
  }

  // ------------------------------------------------------------- what translating promises

  /** A reply is read in full exactly when it has a usable member for every key; then it gives
      those members, for exactly those keys. */
  lemma {:induction false} ReadAllIff(p: Provider, reply: Reply, items: seq<Item>, n: nat)
    requires n <= |items|
    ensures var r := Read(p, reply, items, n);
      && (r.All? <==> reply.Parsed? && forall k | k in KeysOf(items[..n]) :: Usable(reply, k))
      && (r.All? ==> r.translated.Keys == KeysOf(items[..n])
                     && forall k | k in r.translated :: r.translated[k] == reply.members[k].s)
  {
    hide Trim;
    if n == 0 {
      assert items[..0] == [];
    } else {
      ReadAllIff(p, reply, items, n - 1);
      KeysOfSnoc(items, n - 1);
    }
  }

  lemma KeysOfSnoc(items: seq<Item>, n: nat)
    requires n < |items|
    ensures KeysOf(items[..n + 1]) == KeysOf(items[..n]) + {items[n].key}
  {
    assert items[..n + 1] == items[..n] + [items[n]];
    KeysOfHalves(items[..n + 1], n);
    assert items[..n + 1][..n] == items[..n] && items[..n + 1][n..] == [items[n]];
    assert [items[n]][0].key in KeysOf([items[n]]);
  }

  lemma KeysOfHalves(items: seq<Item>, m: nat)
    requires m <= |items|
    ensures KeysOf(items) == KeysOf(items[..m]) + KeysOf(items[m..])
  {
    forall k | k in KeysOf(items) ensures k in KeysOf(items[..m]) + KeysOf(items[m..]) {
      var i :| 0 <= i < |items| && items[i].key == k;
      if i < m { assert items[..m][i].key == k; } else { assert items[m..][i - m].key == k; }
    }
  }

  /** Every translation is a usable answer to one of the prompts sent. */
  ghost predicate Answered(script: nat -> Reply, first: nat, last: nat, translated: map<string, string>) {
    forall k | k in translated ::
      exists c | first <= c < last :: Usable(script(c), k) && script(c).members[k].s == translated[k]
  }

  lemma AnsweredBoth(script: nat -> Reply, first: nat, middle: nat, last: nat,
                     a: map<string, string>, b: map<string, string>)
    requires first < middle <= last
    requires Answered(script, first + 1, middle, a) && Answered(script, middle, last, b)
    ensures Answered(script, first, last, a + b)
  {
    forall k | k in a + b
      ensures exists c | first <= c < last :: Usable(script(c), k) && script(c).members[k].s == (a + b)[k]
    {
      if k in b {
        var c :| middle <= c < last && Usable(script(c), k) && script(c).members[k].s == b[k];
      } else {
        var c :| first + 1 <= c < middle && Usable(script(c), k) && script(c).members[k].s == a[k];
      }
    }
  }

  /** The most prompts a batch of `n` items can cost. */
  function MostPrompts(n: nat): nat {
    if n == 0 then 2 else 4 * n - 2
  }

  /** Under any failures translating ends within 4n - 2 prompts, and a success has exactly the
      keys of the items, each with a usable answer to one of those prompts. */
  lemma {:induction false} TranslatedPromises(p: Provider, c: nat, items: seq<Item>, attempt: nat)
    requires attempt < TRANSLATE_MAX_ATTEMPTS
    ensures var r := Translated(p, c, items, attempt);
      && c < r.1 <= c + MostPrompts(|items|) - attempt
      && (r.0.Done? ==> r.0.translated.Keys == KeysOf(items) && Answered(p.script, c, r.1, r.0.translated))
    decreases |items|, TRANSLATE_MAX_ATTEMPTS - attempt
  {
    hide Read, Usable;
    var r := Translated(p, c, items, attempt);
    var reading := Read(p, p.script(c), items, |items|);
    assert items[..|items|] == items;
    ReadAllIff(p, p.script(c), items, |items|);
    if reading.Missing? {
      if reading.timedOut && |items| > 1 {
        var m := Halfway(items);
        var left := Translated(p, c + 1, items[..m], 0);
        TranslatedPromises(p, c + 1, items[..m], 0);
        if left.0.Done? {
          TranslatedPromises(p, left.1, items[m..], 0);
          if r.0.Done? {
            KeysOfHalves(items, m);
            var right := Translated(p, left.1, items[m..], 0);
            AnsweredBoth(p.script, c, left.1, r.1, left.0.translated, right.0.translated);
          }
        }
      } else if !reading.timedOut && attempt + 1 < TRANSLATE_MAX_ATTEMPTS {
        TranslatedPromises(p, c + 1, items, attempt + 1);
        if r.0.Done? { AnsweredEarlier(p.script, c, r.1, r.0.translated); }
      }
    }
  }

  lemma AnsweredEarlier(script: nat -> Reply, first: nat, last: nat, translated: map<string, string>)
    requires Answered(script, first + 1, last, translated)
    ensures Answered(script, first, last, translated)
  {}

  /** A bad run: every batch fails once, and then times out unless it is a single item. */
  function WorstReplies(good: Reply, n: nat): seq<Reply>
    requires n > 0
  {
    if n == 1 then [Failed(false), good]
    else [Failed(false), Failed(true)] + WorstReplies(good, (n + 1) / 2) + WorstReplies(good, n / 2)
  }

  ghost predicate Plays(p: Provider, c: nat, replies: seq<Reply>) {
    forall i | 0 <= i < |replies| :: p.script(c + i) == replies[i]
  }

  lemma PlaysPart(p: Provider, c: nat, before: seq<Reply>, part: seq<Reply>, after: seq<Reply>)
    requires Plays(p, c, before + part + after)
    ensures Plays(p, c + |before|, part)
  {
    forall i | 0 <= i < |part| ensures p.script(c + |before| + i) == part[i] {
      assert p.script(c + (|before| + i)) == (before + part + after)[|before| + i];
    }
  }

  /** A batch that fails once, times out, and whose halves are then translated. */
  lemma SplitTwice(p: Provider, c: nat, items: seq<Item>)
    requires |items| > 1 && p.script(c) == Failed(false) && p.script(c + 1) == Failed(true)
    ensures var left := Translated(p, c + 2, items[..Halfway(items)], 0);
      left.0.Done? ==>
        var right := Translated(p, left.1, items[Halfway(items)..], 0);
        right.0.Done? ==> Translated(p, c, items, 0).0.Done? && Translated(p, c, items, 0).1 == right.1
  {
    hide Read;
    ReadFailed(p, items);
    assert Translated(p, c, items, 0) == Translated(p, c + 1, items, 1);
  }

  /** A single item whose first prompt fails and whose second is answered. */
  lemma OneItem(p: Provider, c: nat, items: seq<Item>, good: Reply)
    requires |items| == 1 && p.script(c) == Failed(false) && p.script(c + 1) == good
    requires Usable(good, items[0].key)
    ensures Translated(p, c, items, 0).0.Done? && Translated(p, c, items, 0).1 == c + 2
  {
    ReadFailed(p, items);
    assert items[..1] == items;
    ReadAllIff(p, good, items, 1);
    UsableParsed(good, items[0].key);
    hide Read, Usable;
    assert Translated(p, c, items, 0) == Translated(p, c + 1, items, 1);
  }

  lemma WorstSplit(p: Provider, c: nat, good: Reply, n: nat, m: nat)
    requires n > 1 && m == (n + 1) / 2 && Plays(p, c, WorstReplies(good, n))
    ensures 0 < m < n && p.script(c) == Failed(false) && p.script(c + 1) == Failed(true)
    ensures Plays(p, c + 2, WorstReplies(good, m))
    ensures Plays(p, c + 2 + (4 * m - 2), WorstReplies(good, n - m))
  {
    var a, b := WorstReplies(good, m), WorstReplies(good, n - m);
    var failures := [Failed(false), Failed(true)];
    assert n / 2 == n - m;
    assert WorstReplies(good, n) == failures + a + b;
    WorstLength(good, m);
    hide WorstReplies;
    var replies := failures + a + b;
    assert p.script(c + 0) == replies[0] && p.script(c + 1) == replies[1];
    hide Plays;
    PlaysPart(p, c, failures, a, b);
    assert failures + a + b + [] == failures + a + b;
    PlaysPart(p, c, failures + a, b, []);
  }

  lemma WorstOne(p: Provider, c: nat, good: Reply)
    requires Plays(p, c, WorstReplies(good, 1))
    ensures p.script(c) == Failed(false) && p.script(c + 1) == good
  {
    var replies := WorstReplies(good, 1);
    assert p.script(c + 0) == replies[0] && p.script(c + 1) == replies[1];
  }

  /** The bound is attained for every number of items. */
  lemma {:induction false} BoundIsTight(p: Provider, c: nat, items: seq<Item>, good: Reply)
    requires items != [] && (forall k | k in KeysOf(items) :: Usable(good, k))
    requires Plays(p, c, WorstReplies(good, |items|))
    ensures Translated(p, c, items, 0).0.Done?
    ensures Translated(p, c, items, 0).1 == c + 4 * |items| - 2
    decreases |items|
  {
    hide Usable, Translated, WorstReplies, Plays;
    if |items| == 1 {
      WorstOne(p, c, good);
      assert items[0].key in KeysOf(items);
      OneItem(p, c, items, good);
    } else {
      var m := Halfway(items);
      KeysOfHalves(items, m);
      hide KeysOf;
      WorstSplit(p, c, good, |items|, m);
      SplitTwice(p, c, items);
      BoundIsTight(p, c + 2, items[..m], good);
      BoundIsTight(p, c + 2 + (4 * m - 2), items[m..], good);
    }
  }

  lemma UsableParsed(r: Reply, key: string)
    ensures Usable(r, key) ==> r.Parsed?
  {}

  lemma ReadFailed(p: Provider, items: seq<Item>)
    ensures Read(p, Failed(false), items, |items|) == Missing(false)
    ensures Read(p, Failed(true), items, |items|) == Missing(true)
  {}

  lemma {:induction false} WorstLength(good: Reply, n: nat)
    requires n > 0
    ensures |WorstReplies(good, n)| == 4 * n - 2
  {
    if n > 1 {
      WorstLength(good, (n + 1) / 2);
      WorstLength(good, n / 2);
    }
  }

  // --------------------------------------------------------------- what each reply leads to

  /** The reply has a string for the key that is not all white space. */
  predicate Gives(reply: Reply, key: string) {
    && reply.Parsed? && key in reply.members.Keys && reply.members[key].Str?
    && exists i | 0 <= i < |reply.members[key].s| :: !IsSpace(reply.members[key].s[i])
  }

  predicate Complete(reply: Reply, items: seq<Item>) {
    reply.Parsed? && forall i | 0 <= i < |items| :: Gives(reply, items[i].key)
  }

  /** Item `i` is the first without a translation. */
  predicate FirstMissing(reply: Reply, items: seq<Item>, i: nat) {
    i < |items| && !Gives(reply, items[i].key) && forall j | 0 <= j < i :: Gives(reply, items[j].key)
  }

  /** The prompt timed out, or its reply lacks a key that sounds like it. */
  ghost predicate TimesOut(p: Provider, reply: Reply, items: seq<Item>) {
    if reply.Failed? then reply.timedOut
    else exists i: nat :: FirstMissing(reply, items, i) && p.namesTimeout(items[i].key)
  }

  lemma GivesIsUsable(reply: Reply, key: string)
    ensures Gives(reply, key) <==> Usable(reply, key)
  {
    if reply.Parsed? && key in reply.members && reply.members[key].Str? {
      var a, b := TrimOnlySpaces(reply.members[key].s);
    }
  }

  lemma {:induction false} ReadMeans(p: Provider, reply: Reply, items: seq<Item>, n: nat)
    requires n <= |items| && reply.Parsed?
    ensures var r := Read(p, reply, items, n);
      && (r.All? <==> forall i | 0 <= i < n :: Gives(reply, items[i].key))
      && (r.Missing? ==>
            exists i: nat :: i < n && FirstMissing(reply, items, i) && r.timedOut == p.namesTimeout(items[i].key))
  {
    hide Gives, Usable;
    if n > 0 {
      ReadMeans(p, reply, items, n - 1);
      GivesIsUsable(reply, items[n - 1].key);
      if Read(p, reply, items, n - 1).All? && !Gives(reply, items[n - 1].key) {
        assert FirstMissing(reply, items, n - 1);
      }
    }
  }

  lemma OneFirstMissing(reply: Reply, items: seq<Item>, i: nat, j: nat)
    requires FirstMissing(reply, items, i) && FirstMissing(reply, items, j)
    ensures i == j
  {
    hide Gives;
  }

  lemma ReadingMeans(p: Provider, reply: Reply, items: seq<Item>)
    ensures var r := Read(p, reply, items, |items|);
      && (r.All? <==> Complete(reply, items))
      && (r.Missing? ==> (r.timedOut <==> TimesOut(p, reply, items)))
  {
    if reply.Parsed? {
      ReadMeans(p, reply, items, |items|);
      var r := Read(p, reply, items, |items|);
      hide Read, Gives;
      if r.Missing? {
        var i: nat :| i < |items| && FirstMissing(reply, items, i) && r.timedOut == p.namesTimeout(items[i].key);
        hide FirstMissing;
        forall j: nat | FirstMissing(reply, items, j) ensures j == i { OneFirstMissing(reply, items, i, j); }
      }
    }
  }

  /** Halves translated one after another, the second only when the first succeeds. */
  function Halves(p: Provider, c: nat, items: seq<Item>): (Outcome, nat)
    requires |items| > 1
  {
    var m := (|items| + 1) / 2;
    var left := Translated(p, c, items[..m], 0);
    if left.0.Thrown? then left
    else
      var right := Translated(p, left.1, items[m..], 0);
      if right.0.Thrown? then right else (Done(left.0.translated + right.0.translated), right.1)
  }

  /** A batch, prompt by prompt: a complete reply ends it; a timeout splits it, or ends it when it
      is a single item; any other failure is tried once more and then ends it. */
  lemma PromptByPrompt(p: Provider, c: nat, items: seq<Item>)
    ensures var first, second, r := p.script(c), p.script(c + 1), Translated(p, c, items, 0);
      && (Complete(first, items) ==> r.0.Done? && r.1 == c + 1)
      && (!Complete(first, items) && TimesOut(p, first, items) ==>
            r == if |items| > 1 then Halves(p, c + 1, items) else (Thrown, c + 1))
      && (!Complete(first, items) && !TimesOut(p, first, items) ==>
            && (Complete(second, items) ==> r.0.Done? && r.1 == c + 2)
            && (!Complete(second, items) && TimesOut(p, second, items) ==>
                  r == if |items| > 1 then Halves(p, c + 2, items) else (Thrown, c + 2))
            && (!Complete(second, items) && !TimesOut(p, second, items) ==> r == (Thrown, c + 2)))
  {
    ReadingMeans(p, p.script(c), items);
    ReadingMeans(p, p.script(c + 1), items);
    hide Read, Complete, TimesOut;
    AttemptMeans(p, c, items, 0);
    AttemptMeans(p, c + 1, items, 1);
  }

  lemma AttemptMeans(p: Provider, c: nat, items: seq<Item>, attempt: nat)
    requires attempt < 2
    ensures var reading, r := Read(p, p.script(c), items, |items|), Translated(p, c, items, attempt);
      && (reading.All? ==> r == (Done(reading.translated), c + 1))
      && (reading.Missing? && reading.timedOut ==>
            r == if |items| > 1 then Halves(p, c + 1, items) else (Thrown, c + 1))
      && (reading.Missing? && !reading.timedOut ==>
            r == if attempt == 0 then Translated(p, c + 1, items, 1) else (Thrown, c + 1))
  {
    hide Read;
  }
}
