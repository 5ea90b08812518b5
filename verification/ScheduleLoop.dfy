/** scheduleLoop in monitor/runner.go: one goroutine per scheduled check, which
    arms a timer for `next`, fires, and moves `next` on along its grid. */
module ScheduleLoop {
  import opened Base
  import opened Checks
  import opened Schedule

  /** How one wait ends. `readings` are the clock readings the skip loop takes
      after the execution; past the last one the clock stands still. */
  datatype Wake = CtxDone | TimerFired(readings: seq<int>)

  function Reading(readings: seq<int>, k: nat): int
    requires readings != []
  {
    if k < |readings| then readings[k] else readings[|readings| - 1]
  }

  /** `to` is the first point after `from` on the progression of `step` that lies
      in the future by the reading taken when it was tried. */
  ghost predicate FirstFuture(from: int, step: int, readings: seq<int>, to: int, k: int)
    requires readings != []
  {
    && k >= 1 && to == from + k * step
    && to > Reading(readings, k - 1)
    && forall j {:trigger Reading(readings, j - 1)} :: 1 <= j < k ==> from + j * step <= Reading(readings, j - 1)
  }

  ghost predicate Skips(from: int, step: int, readings: seq<int>, to: int)
    requires readings != []
  {
    exists k :: FirstFuture(from, step, readings, to, k)
  }

  method SkipForward(from: int, step: int, readings: seq<int>) returns (next: int)
    requires step > 0 && readings != []
    ensures Skips(from, step, readings, next)
  {
    next := from + step;
    ghost var k := 1;
    var r := 0;
    while next <= Reading(readings, r)
      invariant r == k - 1 >= 0
      invariant next == from + k * step
      invariant forall j {:trigger Reading(readings, j - 1)} ::
        1 <= j < k ==> from + j * step <= Reading(readings, j - 1)
      decreases if r < |readings| then |readings| - r else 0, readings[|readings| - 1] - next
    {
      next := next + step;
      r := r + 1;
      k := k + 1;
    }
    assert FirstFuture(from, step, readings, next, k);
  }

  /** Target i is the first future point of the progression of target i-1, by
      the readings taken when wait i-1 ended. */
  ghost predicate Hop(targets: seq<int>, step: int, wakes: seq<Wake>, i: nat)
    requires 0 < i < |targets| <= |wakes| + 1
  {
    var w := wakes[i - 1];
    w.TimerFired? && w.readings != [] && Skips(targets[i - 1], step, w.readings, targets[i])
  }

  /** What the successive timer targets of one goroutine look like. */
  ghost predicate Trajectory(targets: seq<int>, step: int, wakes: seq<Wake>) {
    0 < |targets| <= |wakes| + 1 && forall i :: 0 < i < |targets| ==> Hop(targets, step, wakes, i)
  }

  lemma Extend(targets: seq<int>, step: int, wakes: seq<Wake>, next: int)
    requires Trajectory(targets, step, wakes) && |targets| <= |wakes|
    requires Hop(targets + [next], step, wakes, |targets|)
    ensures Trajectory(targets + [next], step, wakes)
  {
    forall i | 0 < i < |targets| + 1 ensures Hop(targets + [next], step, wakes, i) {
      if i < |targets| {
        assert Hop(targets, step, wakes, i);
      }
    }
  }

  /** `targets` are the instants a timer was armed for; the check was executed at
      every one but the last, and once before them when `runImmediately`. */
  method ScheduleLoop(c: Check, runImmediately: bool, now: int, wakes: seq<Wake>)
    returns (targets: seq<int>, executions: nat)
    requires forall i :: 0 <= i < |wakes| && wakes[i].TimerFired? ==> wakes[i].readings != []
    ensures
      var eff := EffectiveIntervalSeconds(c);
      && Trajectory(targets, StepNanos(eff), wakes)
      && targets[0] == NextSlotAfter(now, CheckPhaseSeconds(c, eff), eff)
      && executions == |targets| - 1 + (if runImmediately then 1 else 0)
      && (|targets| <= |wakes| ==> wakes[|targets| - 1].CtxDone?)
  {
    executions := if runImmediately then 1 else 0;
    var eff := EffectiveIntervalSeconds(c);
    var phase := CheckPhaseSeconds(c, eff);
    var step := StepNanos(eff);
    var next := NextSlotAfter(now, phase, eff);
    targets := [next];
    var i := 0;
    while i < |wakes|
      invariant 0 <= i <= |wakes| && |targets| == i + 1
      invariant Trajectory(targets, step, wakes)
      invariant next == targets[i] && targets[0] == NextSlotAfter(now, phase, eff)
      invariant executions == i + (if runImmediately then 1 else 0)
    {
      if wakes[i].CtxDone? {
        return;
      }
      executions := executions + 1;
      next := SkipForward(next, step, wakes[i].readings);
      Extend(targets, step, wakes, next);
      targets := targets + [next];
      i := i + 1;
    }
  }

  lemma AdvanceKeepsGrid(from: int, to: int, k: int, phase: int, eff: int)
    requires 0 < eff && to == from + k * (eff * SECOND) && OnGrid(UnixSec(from), phase, eff)
    ensures OnGrid(UnixSec(to), phase, eff) && to % SECOND == from % SECOND
  {
    Distribute(k, eff, 0, SECOND);
    var seconds := k * eff;
    assert to == from + seconds * SECOND;
    var j := OnGridElim(UnixSec(from), phase, eff);
    assert (j + k) * eff == j * eff + seconds;
    OnGridIntro(UnixSec(to), phase, eff, j + k);
  }

  lemma {:induction false} SameGrid(targets: seq<int>, phase: int, eff: int, wakes: seq<Wake>, i: nat)
    requires 0 < eff && Trajectory(targets, eff * SECOND, wakes) && i < |targets|
    requires OnGrid(UnixSec(targets[0]), phase, eff)
    ensures OnGrid(UnixSec(targets[i]), phase, eff)
    ensures targets[i] % SECOND == targets[0] % SECOND
    decreases i
  {
    if i > 0 {
      SameGrid(targets, phase, eff, wakes, i - 1);
      var from := targets[i - 1];
      assert Hop(targets, eff * SECOND, wakes, i);
      var k :| FirstFuture(from, eff * SECOND, wakes[i - 1].readings, targets[i], k);
      AdvanceKeepsGrid(from, targets[i], k, phase, eff);
    }
  }

  /** No drift: every target lies in a slot second of this monitor's grid, and all
      share the sub-second part of the first. */
  lemma NeverDrifts(c: Check, now: int, targets: seq<int>, wakes: seq<Wake>, i: nat)
    requires
      var eff := EffectiveIntervalSeconds(c);
      && 0 < eff <= 9_223_372_036
      && Trajectory(targets, StepNanos(eff), wakes)
      && targets[0] == NextSlotAfter(now, CheckPhaseSeconds(c, eff), eff)
      && FitsInt64(UnixSec(now) - eff) && FitsInt64(UnixSec(now) + eff)
    requires i < |targets|
    ensures
      var eff := EffectiveIntervalSeconds(c);
      OnGrid(UnixSec(targets[i]), CheckPhaseSeconds(c, eff), eff) && targets[i] % SECOND == targets[0] % SECOND
  {
    var eff := EffectiveIntervalSeconds(c);
    StepExactIff(eff);
    NextSlotIsLeast(now, CheckPhaseSeconds(c, eff), eff);
    SameGrid(targets, CheckPhaseSeconds(c, eff), eff, wakes, i);
  }

  /** No slot is targeted twice, and targets are at least one step apart. */
  lemma {:induction false} NeverRepeats(targets: seq<int>, step: int, wakes: seq<Wake>, i: nat, j: nat)
    requires step > 0 && Trajectory(targets, step, wakes) && i < j < |targets|
    ensures targets[i] + step <= targets[j]
    decreases j
  {
    var from := targets[j - 1];
    assert Hop(targets, step, wakes, j);
    var k :| FirstFuture(from, step, wakes[j - 1].readings, targets[j], k);
    MulAtLeast(k, step);
    if i < j - 1 {
      NeverRepeats(targets, step, wakes, i, j - 1);
    }
  }

  /** No burst: with the clock standing at `now` through the skip, the next target
      is the least point of the progression strictly after it, and one step
      ahead at most. */
  lemma NeverBursts(from: int, step: int, now: int, to: int, k: int)
    requires step > 0 && FirstFuture(from, step, [now], to, k)
    ensures to > now
    ensures forall j {:trigger j * step} :: j >= 1 && from + j * step > now ==> to <= from + j * step
    ensures from <= now ==> to <= now + step
  {
    forall j {:trigger j * step} | j >= 1 && from + j * step > now
      ensures to <= from + j * step
    {
      assert j < k ==> from + j * step <= Reading([now], j - 1);
      assert (j - k) * step >= 0;
      assert j * step == k * step + (j - k) * step;
    }
    if k > 1 {
      assert from + (k - 1) * step <= Reading([now], k - 2);
      assert k * step == (k - 1) * step + step;
    }
  }
}
