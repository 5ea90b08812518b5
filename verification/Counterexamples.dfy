/** Concrete runs of the agent in which a promise fails: each shows that the
    condition under which the promise was proved is needed. */
module Counterexamples {
  import opened Base
  import opened Checks
  import opened Timestamp
  import opened Tables
  import opened Reporter
  import opened Agent
  import opened Wakeup
  import Execution
  import Gate

  /** One more event. */
  lemma Do(c: Config, events: seq<Event>, e: Event) returns (more: seq<Event>, b: Agent)
    ensures more == events + [e]
    ensures b == After(c, more) == Next(c, After(c, events), e)
  {
    more := events + [e];
    b := After(c, more);
    assert more[..|events|] == events;
  }

  function NoHistory(): Log {
    Log({}, {}, {}, [], map[], [], {}, {})
  }

  /** A single execution under way on a fresh agent. */
  function Solo(db: DB, x: Check, stage: Stage, inFlight: nat, clock: nat): Agent {
    Agent(db, Gate.GateState(true, 0, None), map[0 := Exec(x, stage, false)], inFlight, map[], false, Idle(), clock,
          NoHistory())
  }

  ghost function Imported(x: Check): DB {
    DB(ApplyWrite(map[], Import(x)), [], 0, None)
  }

  /** A fresh agent with one check imported. */
  function WithCheck(db: DB): Agent {
    Agent(db, Gate.GateState(true, 0, None), map[], 0, map[], false, Idle(), 1, NoHistory())
  }

  lemma ToImport(c: Config, x: Check)
    ensures After(c, [ImportCheck(x)]) == WithCheck(Imported(x))
  {
    assert [ImportCheck(x)][..0] == [];
  }

  lemma StartOne(c: Config, x: Check, db: DB)
    ensures Next(c, WithCheck(db), Start(0, x)) == Solo(db, x, Asking, 0, 2)
  {
  }

  lemma ToStart(c: Config, x: Check) returns (events: seq<Event>)
    ensures After(c, events) == Solo(Imported(x), x, Asking, 0, 2)
  {
    var a;
    ToImport(c, x);
    StartOne(c, x, Imported(x));
    events, a := Do(c, [ImportCheck(x)], Start(0, x));
  }

  lemma ToSlot(c: Config, x: Check) returns (events: seq<Event>)
    ensures After(c, events) == Solo(Imported(x), x, Checking, 1, 4)
  {
    var a;
    events := ToStart(c, x);
    events, a := Do(c, events, Go(0, AskGate));
    assert a.execs == map[0 := Exec(x, Acquiring, false)];
    events, a := Do(c, events, Go(0, Acquire));
    assert a.execs == map[0 := Exec(x, Checking, false)];
  }

  lemma ToInsert(c: Config, x: Check, raw: Timely) returns (events: seq<Event>)
    requires raw.success && raw.guid == x.guid
    ensures After(c, events) == Solo(Imported(x), x, Inserting(raw, 4, None, 1), 1, 7)
  {
    var a;
    events := ToSlot(c, x);
    events, a := Do(c, events, Go(0, Return(raw)));
    assert a.execs == map[0 := Exec(x, Judging(raw, 4), false)];
    events, a := Do(c, events, Go(0, Judge));
    assert a.execs == map[0 := Exec(x, Resolving(raw, 4, None), false)];
    assert Imported(x).checks[x.guid].id == 1;
    events, a := Do(c, events, Go(0, Resolve(true)));
    assert a.execs == map[0 := Exec(x, Inserting(raw, 4, None, 1), false)];
  }

  // ----- A reused rowid strands a transition -----

  /** What the run is remembered by: one result, its check's rowid 1. */
  ghost predicate OneResult(a: Agent, g: Bytes, row: BufRow) {
    && a.db.buffer == [row] && a.db.lastResultId == row.id == 1 && row.checkId == 1 && !row.sent
    && a.db.checks.Keys == {g} && a.db.checks[g].id == 1
    && a.rep == Idle()
  }

  lemma InsertSolo(c: Config, x: Check, raw: Timely, a: Agent) returns (row: BufRow)
    requires a == Solo(Imported(x), x, Inserting(raw, 4, None, 1), 1, 7)
    ensures
      var b := Next(c, a, Go(0, Insert(true)));
      && OneResult(b, x.guid, row)
      && b.execs == map[0 := Exec(x, Noting(1, row.success), false)]
      && b.inFlight == 1 && b.lastStatus == map[] && b.log.changed == {}
  {
    row := NewBufRow(1, 1, Execution.Cooked(x, raw));
  }

  lemma ToNote(c: Config, x: Check, raw: Timely) returns (events: seq<Event>, row: BufRow)
    requires raw.success && raw.guid == x.guid
    ensures OneResult(After(c, events), x.guid, row)
    ensures After(c, events).execs == map[0 := Exec(x, Noting(1, row.success), false)]
    ensures After(c, events).inFlight == 1 && After(c, events).lastStatus == map[] && After(c, events).log.changed == {}
  {
    var b;
    events := ToInsert(c, x, raw);
    row := InsertSolo(c, x, raw, After(c, events));
    events, b := Do(c, events, Go(0, Insert(true)));
  }

  lemma ToFlush(c: Config, x: Check, raw: Timely) returns (events: seq<Event>, row: BufRow)
    requires raw.success && raw.guid == x.guid
    ensures OneResult(After(c, events), x.guid, row)
    ensures After(c, events).execs == map[0 := Exec(x, Flushing(1), false)]
    ensures After(c, events).inFlight == 1 && After(c, events).log.changed == {1}
  {
    var a;
    events, row := ToNote(c, x, raw);
    events, a := Do(c, events, Go(0, Note));
    assert a.execs == map[0 := Exec(x, Flushing(1), false)];
  }

  /** A check imported, run once, its first result signalled. */
  lemma FirstResult(c: Config, x: Check, raw: Timely) returns (events: seq<Event>, row: BufRow)
    requires raw.success && raw.guid == x.guid
    ensures OneResult(After(c, events), x.guid, row)
    ensures After(c, events).log.changed == {1} && After(c, events).execs == map[] && After(c, events).token
  {
    var a;
    events, row := ToFlush(c, x, raw);
    events, a := Do(c, events, Go(0, Trigger));
    assert a.execs == map[0 := Exec(x, Releasing, false)];
    events, a := Do(c, events, Go(0, Release));
  }

  /** Unsent, with a check, no pass going or to come but the timer's. */
  ghost predicate Stranded(a: Agent, row: BufRow) {
    && row in a.db.buffer && !row.sent && Joined(a.db.checks, row.checkId)
    && row.id in a.log.changed && !StillFlushing(a.execs, row.id)
    && a.rep.pc == Waiting && !a.token && a.rep.failedUpTo < row.id
  }

  lemma RemoveOne(db: DB, gone: Check, t: Instant)
    requires gone.deleted
    ensures ApplyDelta(db, [gone], t).checks == db.checks - {gone.guid}
  {
    assert DeltaWrites([gone]) == [Remove(gone.guid)];
    ApplyOneMore(db.checks, [Remove(gone.guid)], 0);
    assert [Remove(gone.guid)][..1] == [Remove(gone.guid)];
  }

  /** Its check removed, the result is passed over, and the signal is used up. */
  lemma PassedOver(c: Config, x: Check, raw: Timely, t: Instant) returns (events: seq<Event>, row: BufRow)
    requires raw.success && raw.guid == x.guid
    ensures After(c, events).db.buffer == [row] && row.id == row.checkId == 1 && !row.sent
    ensures After(c, events).db.checks == map[]
    ensures After(c, events).log.changed == {1} && After(c, events).execs == map[] && !After(c, events).token
    ensures After(c, events).rep == Rep(Posting([]), false, 1, 0)
  {
    var a;
    events, row := FirstResult(c, x, raw);
    RemoveOne(After(c, events).db, x.(deleted := true), t);
    events, a := Do(c, events, Event.Sync([x.(deleted := true)], t));
    assert a.db.checks == map[] && a.db.buffer == [row];
    events, a := Do(c, events, Reports(WakeByToken));
    assert Eligible(a.db.checks, [row]) == [];
    events, a := Do(c, events, Reports(List(true)));
  }

  /** Rowids are reused. A check removed before its result is listed and another
      then given its rowid leave the result unsent and joined, with no signal and
      no failed pass: it waits for the timer. */
  lemma ReuseStrands(c: Config, x: Check, y: Check, raw: Timely, t: Instant) returns (events: seq<Event>, row: BufRow)
    requires raw.success && raw.guid == x.guid
    ensures Stranded(After(c, events), row)
  {
    var a;
    events, row := PassedOver(c, x, raw, t);
    events, a := Do(c, events, Reports(Post(Accepted)));
    assert MarkSent([row], Ids([])) == [row];
    events, a := Do(c, events, Reports(Mark(true)));
    events, a := Do(c, events, Reports(Purge(None)));
    events, a := Do(c, events, ImportCheck(y));
    assert a.db.checks[y.guid].id == 1;
  }

  // ----- A result written after its check is gone -----

  lemma ReplaceOne(db: DB, gone: Check, next: Check, t: Instant)
    requires gone.deleted && !next.deleted && gone.guid != next.guid && db.checks.Keys == {gone.guid}
    ensures
      var checks := ApplyDelta(db, [gone, next], t).checks;
      checks.Keys == {next.guid} && checks[next.guid].id == 1
  {
    var ws := [Remove(gone.guid), Upsert(next)];
    assert DeltaWrites([gone, next]) == ws;
    ApplyOneMore(db.checks, ws, 0);
    ApplyOneMore(db.checks, ws, 1);
    assert ws[..2] == ws && ws[..0] == [];
    assert db.checks - {gone.guid} == map[];
  }

  lemma ToReplaced(c: Config, x: Check, y: Check, raw: Timely, t: Instant) returns (events: seq<Event>)
    requires raw.success && raw.guid == x.guid && x.guid != y.guid && !y.deleted
    ensures
      var a := After(c, events);
      && a.db.checks.Keys == {y.guid} && a.db.checks[y.guid].id == 1 && a.db.buffer == []
      && a.execs == map[0 := Exec(x, Inserting(raw, 4, None, 1), false)]
  {
    var a;
    events := ToInsert(c, x, raw);
    ReplaceOne(Imported(x), x.(deleted := true), y, t);
    events, a := Do(c, events, Event.Sync([x.(deleted := true), y], t));
  }

  lemma LateRow(c: Config, x: Check, y: Check, raw: Timely, a: Agent) returns (row: BufRow)
    requires a.db.checks.Keys == {y.guid} && a.db.checks[y.guid].id == 1 && a.db.buffer == []
    requires a.execs == map[0 := Exec(x, Inserting(raw, 4, None, 1), false)]
    ensures
      var b := Next(c, a, Go(0, Insert(true)));
      && b.db.buffer == [row] && !row.sent && row.checkId == 1 && b.db.checks == a.db.checks
      && row.id in b.log.written && b.log.written[row.id].raw == raw
  {
    row := NewBufRow(a.db.lastResultId + 1, 1, Execution.Cooked(x, raw));
  }

  /** Between BufferResult's two statements one delta removes the check and brings
      another, which gets its rowid. The result then goes out under that other. */
  lemma LateInsertMisattributes(c: Config, x: Check, y: Check, raw: Timely, t: Instant)
    returns (events: seq<Event>, row: BufRow)
    requires raw.success && raw.guid == x.guid && x.guid != y.guid && !y.deleted
    ensures
      var a := After(c, events);
      && row.id in a.log.written && a.log.written[row.id].raw.guid == x.guid
      && y.guid in a.db.checks && a.db.checks[y.guid].id == row.checkId
      && row in Eligible(a.db.checks, a.db.buffer)
  {
    events := ToReplaced(c, x, y, raw, t);
    row := LateRow(c, x, y, raw, After(c, events));
    var a;
    events, a := Do(c, events, Go(0, Insert(true)));
    EligibleIff(a.db.checks, a.db.buffer);
  }

  // ----- A cancelled check shuts the gate -----

  /** One that was cancelled while its checker ran, and whose probe is under way. */
  function CancelledProbe(x: Check, raw: Timely, db: DB): Agent {
    Agent(db, Gate.GateState(true, 0, None), map[0 := Exec(x, Probing(raw, 5, 6), true)], 1, map[], false, Idle(), 7,
          NoHistory())
  }

  lemma ToCancelledProbe(c: Config, x: Check, raw: Timely) returns (events: seq<Event>)
    requires c.gated && IsTransportFailure(raw)
    ensures After(c, events) == CancelledProbe(x, raw, Imported(x))
  {
    var a;
    events := ToSlot(c, x);
    events, a := Do(c, events, Cancel(0));
    assert a.execs == map[0 := Exec(x, Checking, true)];
    events, a := Do(c, events, Go(0, Return(raw)));
    assert a.execs == map[0 := Exec(x, Judging(raw, 5), true)];
    events, a := Do(c, events, Go(0, Judge));
    assert a.execs == map[0 := Exec(x, Probing(raw, 5, 6), true)];
  }

  /** A reconcile cancels a check while it runs. Its failure looks like a dead
      uplink, the probe fails under the same context, and the gate shuts, although
      the internet would have answered. */
  lemma CancelShutsGate(c: Config, x: Check, raw: Timely, now: int) returns (events: seq<Event>)
    requires c.gated && IsTransportFailure(raw)
    ensures
      var a := After(c, events);
      !a.gate.online && forall i :: 0 <= i < |a.log.findings| ==> a.log.findings[i].up
  {
    var a;
    events := ToCancelledProbe(c, x, raw);
    events, a := Do(c, events, Go(0, ProbeEnds(true)));
    assert a.execs == map[0 := Exec(x, Observing(raw, 5, Probe(6, true, true)), true)];
    events, a := Do(c, events, Go(0, GateLock(now)));
  }
}
