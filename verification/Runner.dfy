/** The scheduling half of monitor/runner.go: which goroutines run, with which
    definition, as the enabled checks change. */
module Runners {
  import opened Base
  import opened Checks

  /** A per-check goroutine: the copy of the check it runs, whether it began with
      an immediate execution, and whether its context was cancelled. */
  datatype Loop = Loop(check: Check, immediate: bool, cancelled: bool)

  /** A schedule entry: the goroutine it can cancel, by its place in `loops`. */
  datatype Scheduled = Scheduled(loop: nat, check: Check)

  datatype RunnerState = RunnerState(scheduled: map<int, Scheduled>, lastStatus: map<int, bool>, loops: seq<Loop>)

  /** Exactly one live goroutine per scheduled id, running the scheduled
      definition, and none besides. */
  ghost predicate OneLoopEach(s: RunnerState) {
    && (forall id :: id in s.scheduled ==>
          var sc := s.scheduled[id];
          sc.check.id == id && sc.loop < |s.loops| && s.loops[sc.loop].check == sc.check && !s.loops[sc.loop].cancelled)
    && (forall i :: 0 <= i < |s.loops| && !s.loops[i].cancelled ==>
          s.loops[i].check.id in s.scheduled && s.scheduled[s.loops[i].check.id].loop == i)
  }

  /** The goroutines there before, some cancelled since. */
  ghost predicate LoopsKept(before: seq<Loop>, after: seq<Loop>) {
    && |before| <= |after|
    && forall i :: 0 <= i < |before| ==>
         after[i].check == before[i].check && after[i].immediate == before[i].immediate
         && (before[i].cancelled ==> after[i].cancelled)
  }

  /** The goroutines started since: one at most per id, immediate exactly when the
      id was not scheduled before. */
  ghost predicate LoopsStarted(before: RunnerState, after: seq<Loop>) {
    && |before.loops| <= |after|
    && (forall i :: |before.loops| <= i < |after| ==>
          !after[i].cancelled && (after[i].immediate <==> after[i].check.id !in before.scheduled))
    && (forall i, j :: |before.loops| <= i < j < |after| ==> after[i].check.id != after[j].check.id)
  }

  /** Column by column, all but the update time. */
  predicate Runs(a: Check, c: Check) {
    a.id == c.id && a.guid == c.guid && a.content == c.content && a.meta == c.meta && a.deleted == c.deleted
  }

  /** An entry is kept when its definition still holds, and replaced otherwise. */
  ghost predicate EntryFor(before: RunnerState, after: RunnerState, c: Check) {
    && c.id in after.scheduled
    && Runs(after.scheduled[c.id].check, c)
    && (if c.id in before.scheduled && Runs(before.scheduled[c.id].check, c)
        then after.scheduled[c.id] == before.scheduled[c.id]
        else after.scheduled[c.id].loop >= |before.loops|)
  }

  /** What one pass over the listing makes of the runner; an unreadable listing
      changes nothing. */
  ghost predicate Reconciled(before: RunnerState, after: RunnerState, listing: Option<seq<Check>>) {
    if listing.None? then after == before
    else
      && after.scheduled.Keys == IdsOf(listing.value)
      && (forall c :: c in listing.value ==> EntryFor(before, after, c))
      && LoopsKept(before.loops, after.loops)
      && LoopsStarted(before, after.loops)
      && after.lastStatus == before.lastStatus - (before.scheduled.Keys - IdsOf(listing.value))
  }

  // ----- One check, and one listing -----

  function CancelAt(loops: seq<Loop>, i: nat): seq<Loop>
    requires i < |loops|
  {
    loops[i := loops[i].(cancelled := true)]
  }

  /** An enabled check met in the listing. */
  function ScheduleOne(s: RunnerState, c: Check): RunnerState
    requires c.id in s.scheduled ==> s.scheduled[c.id].loop < |s.loops|
  {
    if c.id in s.scheduled && SameDefinition(s.scheduled[c.id].check, c) then s
    else
      var loops := if c.id in s.scheduled then CancelAt(s.loops, s.scheduled[c.id].loop) else s.loops;
      RunnerState(s.scheduled[c.id := Scheduled(|loops|, c)], s.lastStatus,
                  loops + [Loop(c, c.id !in s.scheduled, false)])
  }

  /** A set of ids not met in the listing. */
  function UnscheduleAll(s: RunnerState, ids: set<int>): RunnerState {
    RunnerState(s.scheduled - ids, s.lastStatus - ids,
                seq(|s.loops|, i requires 0 <= i < |s.loops| =>
                  s.loops[i].(cancelled := s.loops[i].cancelled || s.loops[i].check.id in ids)))
  }

  /** Midway through a listing of distinct checks: the ids in `done` have been met. */
  ghost predicate Midway(before: RunnerState, now: RunnerState, done: set<int>) {
    && OneLoopEach(now)
    && now.lastStatus == before.lastStatus
    && now.scheduled.Keys == before.scheduled.Keys + done
    && (forall id :: id in before.scheduled && id !in done ==> now.scheduled[id] == before.scheduled[id])
    && LoopsKept(before.loops, now.loops)
    && LoopsStarted(before, now.loops)
    && (forall i :: |before.loops| <= i < |now.loops| ==> now.loops[i].check.id in done)
  }

  lemma ScheduleKeepsOneEach(s: RunnerState, c: Check)
    requires OneLoopEach(s)
    ensures OneLoopEach(ScheduleOne(s, c))
  {
  }

  lemma ScheduleStartsOne(before: RunnerState, now: RunnerState, done: set<int>, c: Check)
    requires OneLoopEach(before) && Midway(before, now, done) && c.id !in done
    ensures LoopsKept(before.loops, ScheduleOne(now, c).loops)
    ensures LoopsStarted(before, ScheduleOne(now, c).loops)
    ensures forall i :: |before.loops| <= i < |ScheduleOne(now, c).loops| ==>
                          ScheduleOne(now, c).loops[i].check.id in done + {c.id}
  {
  }

  lemma ScheduleOneMore(before: RunnerState, now: RunnerState, done: set<int>, c: Check)
    requires OneLoopEach(before) && Midway(before, now, done) && c.id !in done
    ensures Midway(before, ScheduleOne(now, c), done + {c.id})
    ensures EntryFor(before, ScheduleOne(now, c), c)
    ensures forall id :: id in now.scheduled && id != c.id ==> ScheduleOne(now, c).scheduled[id] == now.scheduled[id]
  {
    ScheduleKeepsOneEach(now, c);
    ScheduleStartsOne(before, now, done, c);
  }

  lemma UnscheduleKeepsOneEach(s: RunnerState, ids: set<int>)
    requires OneLoopEach(s)
    ensures OneLoopEach(UnscheduleAll(s, ids))
  {
  }

  /** A scheduled id not met in the listing. */
  function Dropped(s: RunnerState, id: int): RunnerState
    requires id in s.scheduled && s.scheduled[id].loop < |s.loops|
  {
    RunnerState(s.scheduled - {id}, s.lastStatus - {id}, CancelAt(s.loops, s.scheduled[id].loop))
  }

  /** Unscheduling one more id cancels just the goroutine its entry names. */
  lemma UnscheduleOneMore(s: RunnerState, ids: set<int>, id: int)
    requires OneLoopEach(s) && id in s.scheduled && id !in ids
    ensures
      var mid := UnscheduleAll(s, ids);
      && id in mid.scheduled && mid.scheduled[id].loop < |mid.loops|
      && UnscheduleAll(s, ids + {id}) == Dropped(mid, id)
  {
    var mid, end := UnscheduleAll(s, ids), UnscheduleAll(s, ids + {id});
    UnscheduleKeepsOneEach(s, ids);
    var k := mid.scheduled[id].loop;
    forall i | 0 <= i < |s.loops| ensures end.loops[i] == CancelAt(mid.loops, k)[i] {
    }
    assert end.loops == CancelAt(mid.loops, k);
    assert end.scheduled == mid.scheduled - {id};
    assert end.lastStatus == mid.lastStatus - {id};
  }

  lemma UnscheduleNext(s: RunnerState, ids: set<int>, rest: set<int>, id: int)
    requires OneLoopEach(s) && id in rest && rest <= ids <= s.scheduled.Keys
    ensures
      var mid := UnscheduleAll(s, ids - rest);
      && id in mid.scheduled && mid.scheduled[id].loop < |mid.loops|
      && UnscheduleAll(s, ids - (rest - {id})) == Dropped(mid, id)
  {
    UnscheduleOneMore(s, ids - rest, id);
    assert ids - (rest - {id}) == ids - rest + {id};
  }

  lemma NotYetSeen(checks: seq<Check>, i: nat)
    requires DistinctIds(checks) && i < |checks|
    ensures checks[i].id !in IdsOf(checks[..i])
    ensures IdsOf(checks[..i + 1]) == IdsOf(checks[..i]) + {checks[i].id}
    ensures forall c :: c in checks[..i + 1] <==> c in checks[..i] || c == checks[i]
    ensures forall c :: c in checks[..i] ==> c.id in IdsOf(checks[..i])
  {
    assert checks[..i + 1] == checks[..i] + [checks[i]];
    forall c | c in checks[..i] ensures c.id != checks[i].id {
      var k :| 0 <= k < i && checks[k] == c;
    }
  }

  /** The first i checks of the listing have been met. */
  ghost predicate Progress(before: RunnerState, now: RunnerState, checks: seq<Check>, i: nat)
    requires i <= |checks|
  {
    Midway(before, now, IdsOf(checks[..i])) && forall c :: c in checks[..i] ==> EntryFor(before, now, c)
  }

  lemma ProgressOneMore(before: RunnerState, now: RunnerState, checks: seq<Check>, i: nat)
    requires OneLoopEach(before) && DistinctIds(checks) && i < |checks| && Progress(before, now, checks, i)
    ensures checks[i].id in now.scheduled ==> now.scheduled[checks[i].id].loop < |now.loops|
    ensures Progress(before, ScheduleOne(now, checks[i]), checks, i + 1)
  {
    NotYetSeen(checks, i);
    var d := checks[i];
    ScheduleOneMore(before, now, IdsOf(checks[..i]), d);
    forall c | c in checks[..i + 1] ensures EntryFor(before, ScheduleOne(now, d), c) {
      if c != d {
        EntryKept(before, now, ScheduleOne(now, d), c);
      }
    }
  }

  lemma EntryKept(before: RunnerState, now: RunnerState, next: RunnerState, c: Check)
    requires EntryFor(before, now, c)
    requires c.id in next.scheduled && next.scheduled[c.id] == now.scheduled[c.id]
    ensures EntryFor(before, next, c)
  {
  }

  lemma FinishListing(before: RunnerState, now: RunnerState, checks: seq<Check>)
    requires OneLoopEach(before) && Midway(before, now, IdsOf(checks))
    requires forall c :: c in checks ==> EntryFor(before, now, c)
    ensures
      var gone := before.scheduled.Keys - IdsOf(checks);
      && gone == now.scheduled.Keys - IdsOf(checks)
      && OneLoopEach(UnscheduleAll(now, gone))
      && Reconciled(before, UnscheduleAll(now, gone), Some(checks))
  {
    var gone := before.scheduled.Keys - IdsOf(checks);
    UnscheduleKeepsOneEach(now, gone);
    var end := UnscheduleAll(now, gone);
    forall c | c in checks ensures EntryFor(before, end, c) {
      assert EntryFor(before, now, c);
      assert c.id in IdsOf(checks);
    }
  }

  /** The next key of a range over a map, in no particular order. */
  method Pick<T>(keys: set<T>) returns (k: T)
    requires keys != {}
    ensures k in keys
  {
    k :| k in keys;
  }

  class Runner {
    var scheduled: map<int, Scheduled>
    var lastStatus: map<int, bool>
    var loops: seq<Loop>

    function State(): RunnerState
      reads this
    {
      RunnerState(scheduled, lastStatus, loops)
    }

    ghost predicate Valid()
      reads this
    {
      OneLoopEach(State())
    }

    constructor ()
      ensures Valid() && State() == RunnerState(map[], map[], [])
    {
      scheduled, lastStatus, loops := map[], map[], [];
    }

    /** Whether `success` differs from the last result seen for the id, which it
        replaces; the first one always does. */
    method CheckStatusTransition(id: int, success: bool) returns (changed: bool)
      modifies this`lastStatus
      ensures lastStatus == old(lastStatus)[id := success]
      ensures changed <==> id !in old(lastStatus) || old(lastStatus)[id] != success
    {
      changed := id !in lastStatus || lastStatus[id] != success;
      lastStatus := lastStatus[id := success];
    }

    method ForgetStatus(id: int)
      modifies this`lastStatus
      ensures lastStatus == old(lastStatus) - {id}
    {
      lastStatus := lastStatus - {id};
    }

    method Cancel(i: nat)
      requires i < |loops|
      modifies this`loops
      ensures loops == CancelAt(old(loops), i)
    {
      loops := loops[i := loops[i].(cancelled := true)];
    }

    /** Starts a goroutine for a check that has none or whose definition changed,
        cancelling the stale one. */
    method Schedule(c: Check)
      requires c.id in scheduled ==> scheduled[c.id].loop < |loops|
      modifies this`scheduled, this`loops
      ensures State() == ScheduleOne(old(State()), c)
    {
      var already := c.id in scheduled;
      if already {
        if SameDefinition(scheduled[c.id].check, c) {
          return;
        }
        Cancel(scheduled[c.id].loop);
      }
      scheduled := scheduled[c.id := Scheduled(|loops|, c)];
      loops := loops + [Loop(c, !already, false)];
    }

    /** One pass: every enabled check gets its goroutine, every other scheduled id
        loses its own and its status. None is a listing that failed. */
    method Reconcile(listing: Option<seq<Check>>)
      requires Valid()
      requires listing.Some? ==> DistinctIds(listing.value)
      modifies this
      ensures Valid()
      ensures Reconciled(old(State()), State(), listing)
    {
      if listing.None? {
        return;
      }
      ghost var before := State();
      var checks := listing.value;
      var seen := {};
      var i := 0;
      while i < |checks|
        invariant 0 <= i <= |checks| && seen == IdsOf(checks[..i])
        invariant Progress(before, State(), checks, i)
      {
        NotYetSeen(checks, i);
        ProgressOneMore(before, State(), checks, i);
        Schedule(checks[i]);
        seen := seen + {checks[i].id};
        i := i + 1;
      }
      assert checks[..i] == checks;
      FinishListing(before, State(), checks);
      Unschedule(scheduled.Keys - seen);
    }

    method Drop(id: int)
      requires id in scheduled && scheduled[id].loop < |loops|
      modifies this
      ensures State() == Dropped(old(State()), id)
    {
      Cancel(scheduled[id].loop);
      scheduled := scheduled - {id};
      ForgetStatus(id);
    }

    method Unschedule(ids: set<int>)
      requires Valid() && ids <= scheduled.Keys
      modifies this
      ensures State() == UnscheduleAll(old(State()), ids)
    {
      ghost var start := State();
      var rest := ids;
      assert start == UnscheduleAll(start, {});
      while rest != {}
        invariant rest <= ids
        invariant State() == UnscheduleAll(start, ids - rest)
        decreases |rest|
      {
        var id := Pick(rest);
        UnscheduleNext(start, ids, rest, id);
        Drop(id);
        rest := rest - {id};
      }
      assert ids - rest == ids;
    }

    /** Run's way out: every goroutine is cancelled. */
    method Shutdown()
      requires Valid()
      modifies this`loops
      ensures LoopsKept(old(loops), loops) && |loops| == |old(loops)|
      ensures forall i :: 0 <= i < |loops| ==> loops[i].cancelled
    {
      var rest := scheduled.Keys;
      while rest != {}
        invariant rest <= scheduled.Keys
        invariant LoopsKept(old(loops), loops) && |loops| == |old(loops)|
        invariant forall i :: 0 <= i < |loops| && !loops[i].cancelled ==>
          loops[i].check.id in rest && scheduled[loops[i].check.id].loop == i
        decreases |rest|
      {
        var id := Pick(rest);
        Cancel(scheduled[id].loop);
        rest := rest - {id};
      }
    }
  }

  // ----- Over any sequence of reconciles -----

  /** What Reconcile promises of the states around the i-th call. */
  ghost predicate Pass(states: seq<RunnerState>, listings: seq<Option<seq<Check>>>, i: nat)
    requires |states| == |listings| + 1 && i < |listings|
  {
    OneLoopEach(states[i + 1]) && Reconciled(states[i], states[i + 1], listings[i])
  }

  ghost predicate Passes(states: seq<RunnerState>, listings: seq<Option<seq<Check>>>) {
    && |states| == |listings| + 1
    && states[0] == RunnerState(map[], map[], [])
    && forall i :: 0 <= i < |listings| ==> Pass(states, listings, i)
  }

  function ImmediateStarts(loops: seq<Loop>, id: int): nat {
    if loops == [] then 0
    else ImmediateStarts(loops[..|loops| - 1], id)
         + if loops[|loops| - 1].immediate && loops[|loops| - 1].check.id == id then 1 else 0
  }

  /** How often an id went from unscheduled to scheduled. */
  function Entries(states: seq<RunnerState>, id: int): nat {
    if |states| < 2 then 0
    else Entries(states[..|states| - 1], id)
         + if id !in states[|states| - 2].scheduled && id in states[|states| - 1].scheduled then 1 else 0
  }

  lemma {:induction false} SameStarts(a: seq<Loop>, b: seq<Loop>, id: int)
    requires |a| == |b| && forall i :: 0 <= i < |a| ==> a[i].check == b[i].check && a[i].immediate == b[i].immediate
    ensures ImmediateStarts(a, id) == ImmediateStarts(b, id)
  {
    if a != [] {
      SameStarts(a[..|a| - 1], b[..|b| - 1], id);
    }
  }

  /** Among goroutines of distinct ids, from position `from` on, at most one is an
      immediate start of `id`. */
  lemma {:induction false} StartsSince(loops: seq<Loop>, from: nat, id: int, at: int)
    requires from <= |loops|
    requires forall i, j :: from <= i < j < |loops| ==> loops[i].check.id != loops[j].check.id
    requires from <= at < |loops| ==> loops[at].check.id == id && loops[at].immediate
    requires !(from <= at < |loops|) ==>
      forall i :: from <= i < |loops| ==> !(loops[i].check.id == id && loops[i].immediate)
    ensures ImmediateStarts(loops, id) == ImmediateStarts(loops[..from], id) + if from <= at < |loops| then 1 else 0
    decreases |loops|
  {
    if from == |loops| {
      assert loops[..from] == loops;
    } else {
      var n := |loops| - 1;
      assert loops[..n][..from] == loops[..from];
      if at == n {
        StartsSince(loops[..n], from, id, -1);
      } else {
        StartsSince(loops[..n], from, id, at);
      }
    }
  }

  lemma OnePassStarts(before: RunnerState, after: RunnerState, listing: Option<seq<Check>>, id: int)
    requires OneLoopEach(before) && OneLoopEach(after) && Reconciled(before, after, listing)
    ensures ImmediateStarts(after.loops, id) == ImmediateStarts(before.loops, id)
      + if id !in before.scheduled && id in after.scheduled then 1 else 0
  {
    if listing.Some? {
      var from := |before.loops|;
      SameStarts(after.loops[..from], before.loops, id);
      if id !in before.scheduled && id in after.scheduled {
        var c :| c in listing.value && c.id == id;
        assert EntryFor(before, after, c);
        StartsSince(after.loops, from, id, after.scheduled[id].loop);
      } else {
        forall i | from <= i < |after.loops| ensures !(after.loops[i].check.id == id && after.loops[i].immediate) {
          StartedIsScheduled(before, after, listing.value, i);
        }
        StartsSince(after.loops, from, id, -1);
      }
    }
  }

  lemma StartedIsScheduled(before: RunnerState, after: RunnerState, checks: seq<Check>, i: nat)
    requires OneLoopEach(before) && OneLoopEach(after) && Reconciled(before, after, Some(checks))
    requires |before.loops| <= i < |after.loops|
    ensures after.loops[i].check.id in after.scheduled
  {
  }

  /** Over any reconciles, failed ones included: a check has been run immediately
      exactly as often as it entered the schedule. */
  lemma {:induction false} ImmediateIffEntered(states: seq<RunnerState>, listings: seq<Option<seq<Check>>>,
                                               i: nat, id: int)
    requires Passes(states, listings) && i < |states|
    ensures OneLoopEach(states[i])
    ensures ImmediateStarts(states[i].loops, id) == Entries(states[..i + 1], id)
  {
    if i > 0 {
      ImmediateIffEntered(states, listings, i - 1, id);
      assert Pass(states, listings, i - 1);
      assert states[..i + 1][..i] == states[..i];
      OnePassStarts(states[i - 1], states[i], listings[i - 1], id);
    }
  }

  /** The schedule depends on the last listing read alone, whatever failed since:
      its keys are the listing's ids and each definition held is the listing's. */
  lemma {:induction false} ScheduleIsLastListing(states: seq<RunnerState>, listings: seq<Option<seq<Check>>>,
                                                 last: nat, i: nat)
    requires Passes(states, listings) && last < i <= |listings|
    requires listings[last].Some? && forall k :: last < k < i ==> listings[k].None?
    ensures states[i].scheduled.Keys == IdsOf(listings[last].value)
    ensures forall c :: c in listings[last].value ==>
      && c.id in states[i].scheduled
      && (var held := states[i].scheduled[c.id].check;
          held.guid == c.guid && held.content == c.content && held.meta == c.meta && held.deleted == c.deleted)
    decreases i
  {
    if i == last + 1 {
      assert Pass(states, listings, last);
      forall c | c in listings[last].value ensures EntryFor(states[last], states[i], c) {
      }
    } else {
      ScheduleIsLastListing(states, listings, last, i - 1);
      assert Pass(states, listings, i - 1);
    }
  }

  /** What a pass that could list makes of one check, on the columns: its live
      goroutine runs the listed id, guid, content and metadata; it was there before
      exactly when those were held already, and then only the update time may
      differ; otherwise the one there before, if any, is cancelled. */
  lemma EditIsPickedUp(before: RunnerState, after: RunnerState, listed: seq<Check>, c: Check)
    requires OneLoopEach(before) && OneLoopEach(after) && Reconciled(before, after, Some(listed)) && c in listed
    ensures c.id in after.scheduled && after.scheduled[c.id].loop < |after.loops|
    ensures
      var live := after.loops[after.scheduled[c.id].loop];
      && !live.cancelled && live.check.id == c.id && live.check.guid == c.guid
      && live.check.content == c.content && live.check.meta == c.meta && live.check.deleted == c.deleted
    ensures c.id in before.scheduled ==>
      var held := before.scheduled[c.id];
      var same := held.check.guid == c.guid && held.check.content == c.content && held.check.meta == c.meta
                  && held.check.deleted == c.deleted;
      && (after.scheduled[c.id].loop == held.loop <==> same)
      && (!same ==> held.loop < |after.loops| && after.loops[held.loop].cancelled)
  {
    assert EntryFor(before, after, c);
  }
}
