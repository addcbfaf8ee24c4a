/** The load watcher (`degraded_mode.py`): three markers and a mode, updated sample by sample,
    against a specification over the whole history of samples. */
module DegradedMode {
  import opened Text

  datatype Mode = Full | Degraded | Emergency

  const DEGRADED_THRESHOLD := 80.0
  const EMERGENCY_THRESHOLD := 95.0

  /** The greater of CPU and RAM load, and when it was read. */
  datatype Sample = Sample(peak: real, now: real)

  datatype Timers = Timers(degradedAfter: real, emergencyAfter: real, recoverAfter: real)

  datatype Level = Critical | Elevated | Low

  predicate In(l: Level, x: Sample) {
    match l
    case Critical => x.peak >= EMERGENCY_THRESHOLD
    case Elevated => x.peak >= DEGRADED_THRESHOLD
    case Low => x.peak < DEGRADED_THRESHOLD
  }

  // --------------------------------------------------- specification over the whole history

  /** Where the longest suffix of samples in the level begins; the length when it is empty. */
  function StartOf(l: Level, h: seq<Sample>): (k: nat)
    ensures k <= |h|
    ensures forall j | k <= j < |h| :: In(l, h[j])
    ensures k > 0 ==> !In(l, h[k - 1])
  {
    if h == [] || !In(l, h[|h| - 1]) then |h|
    else
      var k := StartOf(l, h[..|h| - 1]);
      assert forall j | k <= j < |h| - 1 :: In(l, h[..|h| - 1][j]) && h[..|h| - 1][j] == h[j];
      assert k > 0 ==> h[..|h| - 1][k - 1] == h[k - 1];
      k
  }

  /** The time of the first sample of that suffix. */
  function Since(l: Level, h: seq<Sample>): Option<real> {
    if StartOf(l, h) == |h| then None else Some(h[StartOf(l, h)].now)
  }

  /** The last sample is in the level and its suffix has lasted this long. */
  predicate Sustained(l: Level, h: seq<Sample>, after: real) {
    h != [] && Since(l, h).Some? && h[|h| - 1].now - Since(l, h).value >= after
  }

  /** What a sample fires depends on the history up to it. */
  predicate EmergencyFires(t: Timers, h: seq<Sample>) {
    Sustained(Critical, h, t.emergencyAfter)
  }

  predicate DegradedFires(t: Timers, h: seq<Sample>) {
    h != [] && !In(Critical, h[|h| - 1]) && Sustained(Elevated, h, t.degradedAfter)
  }

  predicate Recovers(t: Timers, h: seq<Sample>) {
    Sustained(Low, h, t.recoverAfter)
  }

  predicate RecoversAt(t: Timers, h: seq<Sample>, i: nat) {
    i < |h| && Recovers(t, h[..i + 1])
  }

  /** Sample `i` is not followed by a completed recovery. */
  ghost predicate NotUndone(t: Timers, h: seq<Sample>, i: nat) {
    forall j | i < j < |h| :: !RecoversAt(t, h, j)
  }

  ghost predicate EmergencySinceRecovery(t: Timers, h: seq<Sample>) {
    exists i | 0 <= i < |h| :: EmergencyFires(t, h[..i + 1]) && NotUndone(t, h, i)
  }

  ghost predicate DegradedSinceRecovery(t: Timers, h: seq<Sample>) {
    exists i | 0 <= i < |h| :: DegradedFires(t, h[..i + 1]) && NotUndone(t, h, i)
  }

  /** Emergency if an emergency trigger fired since the last completed recovery, else degraded
      if a degraded trigger did, else full. */
  ghost function ModeOf(t: Timers, h: seq<Sample>): Mode {
    if EmergencySinceRecovery(t, h) then Emergency
    else if DegradedSinceRecovery(t, h) then Degraded
    else Full
  }

  // ------------------------------------------------------------------- one sample at a time

  lemma SinceSnoc(l: Level, h: seq<Sample>, x: Sample)
    ensures Since(l, h + [x]) ==
      if !In(l, x) then None else if Since(l, h).None? then Some(x.now) else Since(l, h)
  {
    assert (h + [x])[..|h|] == h;
  }

  lemma NotUndoneSnoc(t: Timers, h: seq<Sample>, x: Sample, i: nat)
    requires i < |h|
    ensures NotUndone(t, h + [x], i) <==> NotUndone(t, h, i) && !Recovers(t, h + [x])
  {
    var all := h + [x];
    hide Recovers;
    assert all[..|h| + 1] == all;
    forall j | i < j < |h| ensures RecoversAt(t, all, j) == RecoversAt(t, h, j) {
      assert all[..j + 1] == h[..j + 1];
    }
    assert RecoversAt(t, all, |h|) == Recovers(t, all);
  }

  /** A sample recovers, fires, or leaves the mode alone; only recovery leads back to full. */
  lemma ModeSnoc(t: Timers, h: seq<Sample>, x: Sample)
    ensures var all := h + [x];
      ModeOf(t, all) ==
        if Recovers(t, all) then Full
        else if EmergencyFires(t, all) then Emergency
        else if DegradedFires(t, all) && ModeOf(t, h) != Emergency then Degraded
        else ModeOf(t, h)
  {
    var all := h + [x];
    assert all[..|h| + 1] == all;
    FiresOnce(t, all);
    EmergencySnoc(t, h, x);
    DegradedSnoc(t, h, x);
  }

  /** A sample that recovers fires nothing. */
  lemma FiresOnce(t: Timers, h: seq<Sample>)
    ensures Recovers(t, h) ==> !EmergencyFires(t, h) && !DegradedFires(t, h)
    ensures EmergencyFires(t, h) ==> !DegradedFires(t, h)
  {
    if h != [] {
      var n := |h| - 1;
      assert Since(Low, h).Some? ==> In(Low, h[n]);
      assert Since(Critical, h).Some? ==> In(Critical, h[n]);
      assert Since(Elevated, h).Some? ==> In(Elevated, h[n]);
    }
  }

  lemma EmergencySnoc(t: Timers, h: seq<Sample>, x: Sample)
    ensures var all := h + [x];
      EmergencySinceRecovery(t, all) <==>
        EmergencyFires(t, all) || (EmergencySinceRecovery(t, h) && !Recovers(t, all))
  {
    hide EmergencyFires, Recovers;
    var all := h + [x];
    assert all[..|h| + 1] == all;
    if EmergencyFires(t, all) {
      assert EmergencyFires(t, all[..|h| + 1]) && NotUndone(t, all, |h|);
    }
    if i :| 0 <= i < |h| && EmergencyFires(t, h[..i + 1]) && NotUndone(t, h, i) {
      assert all[..i + 1] == h[..i + 1];
      NotUndoneSnoc(t, h, x, i);
      if !Recovers(t, all) { assert EmergencyFires(t, all[..i + 1]) && NotUndone(t, all, i); }
    }
    if i :| 0 <= i < |all| && EmergencyFires(t, all[..i + 1]) && NotUndone(t, all, i) {
      if i < |h| {
        assert all[..i + 1] == h[..i + 1];
        NotUndoneSnoc(t, h, x, i);
      }
    }
  }

  lemma DegradedSnoc(t: Timers, h: seq<Sample>, x: Sample)
    ensures var all := h + [x];
      DegradedSinceRecovery(t, all) <==>
        DegradedFires(t, all) || (DegradedSinceRecovery(t, h) && !Recovers(t, all))
  {
    hide DegradedFires, Recovers;
    var all := h + [x];
    assert all[..|h| + 1] == all;
    if DegradedFires(t, all) {
      assert DegradedFires(t, all[..|h| + 1]) && NotUndone(t, all, |h|);
    }
    if i :| 0 <= i < |h| && DegradedFires(t, h[..i + 1]) && NotUndone(t, h, i) {
      assert all[..i + 1] == h[..i + 1];
      NotUndoneSnoc(t, h, x, i);
      if !Recovers(t, all) { assert DegradedFires(t, all[..i + 1]) && NotUndone(t, all, i); }
    }
    if i :| 0 <= i < |all| && DegradedFires(t, all[..i + 1]) && NotUndone(t, all, i) {
      if i < |h| {
        assert all[..i + 1] == h[..i + 1];
        NotUndoneSnoc(t, h, x, i);
      }
    }
  }

  // ----------------------------------------------------------------------------- the watcher

  class DegradedWatcher {
    const timers: Timers
    var mode: Mode
    var aboveEmSince: Option<real>
    var aboveDegSince: Option<real>
    var belowSince: Option<real>
    ghost var history: seq<Sample>

    /** After every history the three markers and the mode are what the specification says. */
    ghost predicate Valid()
      reads this
    {
      && aboveEmSince == Since(Critical, history)
      && aboveDegSince == Since(Elevated, history)
      && belowSince == Since(Low, history)
      && mode == ModeOf(timers, history)
    }

    constructor (timers: Timers)
      ensures Valid() && history == [] && mode == Full && this.timers == timers
    {
      this.timers := timers;
      mode, aboveEmSince, aboveDegSince, belowSince := Full, None, None, None;
      history := [];
    }

    /** One probe reading at time `now`. */
    method Tick(cpu: real, ram: real, now: real)
      requires Valid()
      modifies this
      ensures Valid()
      ensures |history| == |old(history)| + 1 && history[..|old(history)|] == old(history)
      ensures var x := history[|old(history)|];
        x.now == now && x.peak >= cpu && x.peak >= ram && (x.peak == cpu || x.peak == ram)
    {
      var peak := if cpu >= ram then cpu else ram;
      ghost var h, x := history, Sample(peak, now);
      ghost var all := h + [x];
      SinceSnoc(Critical, h, x);
      SinceSnoc(Elevated, h, x);
      SinceSnoc(Low, h, x);
      ModeSnoc(timers, h, x);
      hide StartOf, Since, ModeOf;
      if peak >= EMERGENCY_THRESHOLD {
        if aboveEmSince.None? {
          aboveEmSince := Some(now);
        }
        if aboveDegSince.None? {
          aboveDegSince := Some(now);
        }
        belowSince := None;
        if now - aboveEmSince.value >= timers.emergencyAfter {
          mode := Emergency;
        }
      } else if peak >= DEGRADED_THRESHOLD {
        aboveEmSince := None;
        if aboveDegSince.None? {
          aboveDegSince := Some(now);
        }
        belowSince := None;
        if now - aboveDegSince.value >= timers.degradedAfter && mode != Emergency {
          mode := Degraded;
        }
      } else {
        aboveEmSince := None;
        aboveDegSince := None;
        if belowSince.None? {
          belowSince := Some(now);
        }
        if now - belowSince.value >= timers.recoverAfter {
          mode := Full;
        }
      }
      history := all;
    }
  }

  // --------------------------------------------------------------- where code and text differ

  /** Sample `i` is below 95 and comes when the run from `k` has lasted for the degraded period. */
  predicate DegradedAt(t: Timers, h: seq<Sample>, k: nat, i: nat) {
    k <= i < |h| && h[i].peak < EMERGENCY_THRESHOLD && h[i].now - h[k].now >= t.degradedAfter
  }

  predicate EmergencyAt(t: Timers, h: seq<Sample>, k: nat, i: nat) {
    k <= i < |h| && EmergencyFires(t, h[..i + 1])
  }

  ghost predicate DegradedDue(t: Timers, h: seq<Sample>, k: nat) {
    exists i: nat :: DegradedAt(t, h, k, i)
  }

  /** From `k` on, load is held at 95 or above for the emergency period. */
  ghost predicate EmergencyDue(t: Timers, h: seq<Sample>, k: nat) {
    exists i: nat :: EmergencyAt(t, h, k, i)
  }

  /** The mode at the end of a run of elevated samples: emergency if it was before or became so
      in the run, else degraded if it was before or became so, else full. */
  lemma {:induction false} ElevatedLoadMode(t: Timers, h: seq<Sample>)
    requires StartOf(Elevated, h) < |h|
    ensures var k := StartOf(Elevated, h);
      ModeOf(t, h) ==
        if ModeOf(t, h[..k]) == Emergency || EmergencyDue(t, h, k) then Emergency
        else if ModeOf(t, h[..k]) == Degraded || DegradedDue(t, h, k) then Degraded
        else Full
  {
    var n, k := |h| - 1, StartOf(Elevated, h);
    var front := h[..n];
    assert StartOf(Elevated, front) == k && h[n].peak >= DEGRADED_THRESHOLD;
    hide *;
    assert h == front + [h[n]] && front[..k] == h[..k];
    LastOfRun(t, h);
    ModeSnoc(t, front, h[n]);
    DueSnoc(t, front, h[n], k);
    if k < n {
      ElevatedLoadMode(t, front);
    } else {
      NotDueYet(t, front);
      assert front == h[..k];
    }
  }

  /** The module text promises that load sustained above 80 leads out of full mode. While load is
      elevated, it does exactly when the mode was not full before, or a sample below 95 comes
      after the degraded period, or 95 is held for the emergency period. */
  lemma ElevatedLoadIff(t: Timers, h: seq<Sample>)
    requires StartOf(Elevated, h) < |h|
    ensures var k := StartOf(Elevated, h);
      ModeOf(t, h) != Full <==> ModeOf(t, h[..k]) != Full || DegradedDue(t, h, k) || EmergencyDue(t, h, k)
  {
    ElevatedLoadMode(t, h);
  }

  /** Low load, from `k` on, has lasted for the recovery period at some sample. */
  ghost predicate RecoveryDue(t: Timers, h: seq<Sample>, k: nat) {
    exists i: nat :: RecoveryAt(t, h, k, i)
  }

  predicate RecoveryAt(t: Timers, h: seq<Sample>, k: nat, i: nat) {
    k <= i < |h| && h[i].now - h[k].now >= t.recoverAfter
  }

  /** The mode at the end of a run of samples below 80: full if the run has lasted for the recovery
      period at some sample, else what it was before the run. */
  lemma {:induction false} LowLoadMode(t: Timers, h: seq<Sample>)
    requires StartOf(Low, h) < |h|
    ensures var k := StartOf(Low, h);
      ModeOf(t, h) == if RecoveryDue(t, h, k) then Full else ModeOf(t, h[..k])
  {
    var n, k := |h| - 1, StartOf(Low, h);
    var front := h[..n];
    assert StartOf(Low, front) == k;
    LastOfLowRun(t, h);
    assert h == front + [h[n]] && front[..k] == h[..k];
    forall i: nat
      ensures RecoveryAt(t, h, k, i) <==> RecoveryAt(t, front, k, i) || (i == n && RecoveryAt(t, h, k, n))
    {}
    if RecoveryAt(t, h, k, n) { assert RecoveryDue(t, h, k); }
    if i: nat :| RecoveryAt(t, front, k, i) { assert RecoveryAt(t, h, k, i); }
    ModeSnoc(t, front, h[n]);
    hide StartOf, ModeOf, EmergencyFires, DegradedFires, Recovers, RecoveryAt;
    if k < n {
      LowLoadMode(t, front);
    } else {
      NoRecoveryYet(t, front);
      assert front == h[..k];
    }
  }

  lemma NoRecoveryYet(t: Timers, h: seq<Sample>)
    ensures !RecoveryDue(t, h, |h|)
  {}

  lemma LastOfLowRun(t: Timers, h: seq<Sample>)
    requires StartOf(Low, h) < |h|
    ensures !EmergencyFires(t, h) && !DegradedFires(t, h)
    ensures Recovers(t, h) <==> RecoveryAt(t, h, StartOf(Low, h), |h| - 1)
  {
    assert In(Low, h[|h| - 1]) && !In(Elevated, h[|h| - 1]) && !In(Critical, h[|h| - 1]);
  }

  /** The two thresholds: with no periods to wait for, one sample of 95 or more means emergency,
      one of 80 or more degraded, and one below 80 full. */
  lemma OneSample(peak: real, now: real)
    ensures ModeOf(Timers(0.0, 0.0, 0.0), [Sample(peak, now)]) ==
      if peak >= 95.0 then Emergency else if peak >= 80.0 then Degraded else Full
  {
    var t, x := Timers(0.0, 0.0, 0.0), Sample(peak, now);
    assert [] + [x] == [x] && [x][..0] == [] && [x][0] == x;
    ModeSnoc(t, [], x);
    assert ModeOf(t, []) == Full;
    OneStart(x);
    hide ModeOf;
  }

  lemma OneStart(x: Sample)
    ensures forall l :: Since(l, [x]) == if In(l, x) then Some(x.now) else None
  {
    forall l ensures Since(l, [x]) == if In(l, x) then Some(x.now) else None {
      SinceSnoc(l, [], x);
      assert [] + [x] == [x];
    }
  }

  lemma NotDueYet(t: Timers, h: seq<Sample>)
    ensures !DegradedDue(t, h, |h|) && !EmergencyDue(t, h, |h|)
  {}

  /** What the last sample of an elevated run can do. */
  lemma LastOfRun(t: Timers, h: seq<Sample>)
    requires StartOf(Elevated, h) < |h|
    ensures !Recovers(t, h)
    ensures DegradedFires(t, h) <==> DegradedAt(t, h, StartOf(Elevated, h), |h| - 1)
  {
    assert In(Elevated, h[|h| - 1]) && !In(Low, h[|h| - 1]);
  }

  lemma DueSnoc(t: Timers, h: seq<Sample>, x: Sample, k: nat)
    requires k <= |h|
    ensures var all := h + [x];
      && (EmergencyDue(t, all, k) <==> EmergencyDue(t, h, k) || EmergencyFires(t, all))
      && (DegradedDue(t, all, k) <==> DegradedDue(t, h, k) || DegradedAt(t, all, k, |h|))
  {
    hide EmergencyFires;
    var all, n := h + [x], |h|;
    assert all[..n + 1] == all;
    forall i: nat | i < n
      ensures EmergencyAt(t, all, k, i) == EmergencyAt(t, h, k, i) && DegradedAt(t, all, k, i) == DegradedAt(t, h, k, i)
    {
      assert all[..i + 1] == h[..i + 1];
    }
    assert EmergencyAt(t, all, k, n) == EmergencyFires(t, all);
    if i: nat :| EmergencyAt(t, h, k, i) { assert EmergencyAt(t, all, k, i); }
    if i: nat :| DegradedAt(t, h, k, i) { assert DegradedAt(t, all, k, i); }
  }

  /** So the promise holds at every sample below 95. */
  lemma SustainedLoadDegrades(t: Timers, h: seq<Sample>)
    requires h != [] && Sustained(Elevated, h, t.degradedAfter) && h[|h| - 1].peak < EMERGENCY_THRESHOLD
    ensures ModeOf(t, h) != Full
  {
    ElevatedLoadIff(t, h);
    assert DegradedAt(t, h, StartOf(Elevated, h), |h| - 1);
  }

  /** Load that is always at 95 or above leaves full mode exactly when the emergency period has
      passed; the degraded period has no say. */
  lemma CriticalLoadStaysFull(t: Timers, h: seq<Sample>)
    requires forall i | 0 <= i < |h| :: In(Critical, h[i])
    ensures ModeOf(t, h) == Full <==> forall i | 0 <= i < |h| :: h[i].now - h[0].now < t.emergencyAfter
  {
    if h != [] {
      RunFromStart(Elevated, h);
      ElevatedLoadIff(t, h);
      assert h[..0] == [] && ModeOf(t, []) == Full;
      forall i | 0 <= i < |h| ensures EmergencyFires(t, h[..i + 1]) <==> h[i].now - h[0].now >= t.emergencyAfter {
        RunFromStart(Critical, h[..i + 1]);
      }
      if i: nat :| i < |h| && h[i].now - h[0].now >= t.emergencyAfter { assert EmergencyAt(t, h, 0, i); }
    }
  }

  lemma {:induction false} RunFromStart(l: Level, h: seq<Sample>)
    requires forall i | 0 <= i < |h| :: In(l, h[i])
    ensures StartOf(l, h) == 0
  {
    if h != [] {
      RunFromStart(l, h[..|h| - 1]);
    }
  }

  /** With the timers and the polling interval of the constructor: 85 from 0 to 20 s, and 96 at
      25 and 30 s, is 30 s above 80, and the mode is still full. */
  lemma SustainedLoadCanStayFull()
    ensures var t := Timers(30.0, 10.0, 60.0);
      var h := [Sample(85.0, 0.0), Sample(85.0, 5.0), Sample(85.0, 10.0), Sample(85.0, 15.0), Sample(85.0, 20.0),
                Sample(96.0, 25.0), Sample(96.0, 30.0)];
      Sustained(Elevated, h, t.degradedAfter) && ModeOf(t, h) == Full
  {
    var t := Timers(30.0, 10.0, 60.0);
    var h := [Sample(85.0, 0.0), Sample(85.0, 5.0), Sample(85.0, 10.0), Sample(85.0, 15.0), Sample(85.0, 20.0),
              Sample(96.0, 25.0), Sample(96.0, 30.0)];
    forall i: nat ensures !EmergencyAt(t, h, 0, i) {
      if i < |h| { CriticalFrom(h[..i + 1], 5); }
    }
    StaysFull(t, h);
  }

  /** The run of samples at 95 or above begins no earlier than the first of them. */
  lemma CriticalFrom(h: seq<Sample>, k: nat)
    requires forall i | 0 <= i < k && i < |h| :: !In(Critical, h[i])
    ensures StartOf(Critical, h) >= if k < |h| then k else |h|
  {}

  /** Elevated from the first sample on, and neither trigger ever due. */
  lemma StaysFull(t: Timers, h: seq<Sample>)
    requires h != [] && (forall i | 0 <= i < |h| :: In(Elevated, h[i]))
    requires !DegradedDue(t, h, 0) && !EmergencyDue(t, h, 0)
    ensures StartOf(Elevated, h) == 0 && ModeOf(t, h) == Full
  {
    RunFromStart(Elevated, h);
    ElevatedLoadIff(t, h);
    assert h[..0] == [] && ModeOf(t, []) == Full;
  }

  /** The promise holds of every history exactly when there is no emergency period to wait for. */
  lemma PromiseKeptIff(t: Timers)
    ensures (forall h :: Sustained(Elevated, h, t.degradedAfter) ==> ModeOf(t, h) != Full)
       <==> t.emergencyAfter <= 0.0
  {
    if t.emergencyAfter <= 0.0 {
      forall h | Sustained(Elevated, h, t.degradedAfter) ensures ModeOf(t, h) != Full {
        NoPeriodKeepsPromise(t, h);
      }
    } else {
      var d := t.degradedAfter;
      var h := if d <= 0.0 then [Sample(96.0, 0.0)] else [Sample(85.0, 0.0), Sample(96.0, d)];
      StaysFull(t, h);
      assert Sustained(Elevated, h, d);
    }
  }

  lemma FirstOfRun(h: seq<Sample>, i: nat)
    requires i == StartOf(Critical, h) < |h|
    ensures StartOf(Elevated, h) <= i && Since(Critical, h[..i + 1]) == Some(h[i].now)
  {
    hide StartOf;
    var front := h[..i];
    forall j | i <= j < |h| ensures In(Elevated, h[j]) { assert In(Critical, h[j]); }
    assert StartOf(Critical, front) == i by {
      assert i > 0 ==> front[i - 1] == h[i - 1];
    }
    assert front + [h[i]] == h[..i + 1] && In(Critical, h[i]) && Since(Critical, front) == None;
    hide *;
    SinceSnoc(Critical, front, h[i]);
  }

  lemma NoPeriodKeepsPromise(t: Timers, h: seq<Sample>)
    requires t.emergencyAfter <= 0.0 && Sustained(Elevated, h, t.degradedAfter)
    ensures ModeOf(t, h) != Full
  {
    var i := StartOf(Critical, h);
    if i == |h| {
      SustainedLoadDegrades(t, h);
    } else {
      ElevatedLoadIff(t, h);
      FirstOfRun(h, i);
      assert EmergencyAt(t, h, StartOf(Elevated, h), i);
    }
  }
}
