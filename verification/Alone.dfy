/** The steps an execution takes in the agent's state machine, played with nothing
    in between, are the sequential execute: the machine splits it, and changes
    nothing else about it. */
module Alone {
  import opened Base
  import opened Checks
  import opened Timestamp
  import opened Tables
  import opened Gate
  import opened Stores
  import opened Runners
  import opened Execution
  import opened Agent

  /** A move of execution i, if it is still under way. */
  function Moved(c: Config, a: Agent, i: nat, m: Move): Agent {
    if i in a.execs then GoStep(c, a, i, m) else a
  }

  function Play(c: Config, a: Agent, i: nat, moves: seq<Move>): Agent {
    if moves == [] then a else Moved(c, Play(c, a, i, moves[..|moves| - 1]), i, moves[|moves| - 1])
  }

  lemma PlayOne(c: Config, a: Agent, i: nat, moves: seq<Move>, m: Move)
    ensures Play(c, a, i, moves + [m]) == Moved(c, Play(c, a, i, moves), i, m)
  {
    assert (moves + [m])[..|moves|] == moves;
  }

  lemma {:induction false} PlayJoins(c: Config, a: Agent, i: nat, first: seq<Move>, second: seq<Move>)
    ensures Play(c, a, i, first + second) == Play(c, Play(c, a, i, first), i, second)
  {
    if second == [] {
      assert first + second == first;
    } else {
      var n := |second| - 1;
      var all := first + second;
      assert all[..|all| - 1] == first + second[..n];
      PlayJoins(c, a, i, first, second[..n]);
    }
  }

  lemma PlayThree(c: Config, a: Agent, i: nat, m1: Move, m2: Move, m3: Move)
    ensures Play(c, a, i, [m1, m2, m3]) == Moved(c, Moved(c, Moved(c, a, i, m1), i, m2), i, m3)
  {
    PlayOne(c, a, i, [], m1);
    PlayOne(c, a, i, [m1], m2);
    PlayOne(c, a, i, [m1, m2], m3);
    assert [] + [m1] == [m1] && [m1] + [m2] == [m1, m2] && [m1, m2] + [m3] == [m1, m2, m3];
  }

  // ----- Every move of an execution, in the order it makes them -----

  /** Those its branches leave out change nothing. */
  function ToVerdict(raw: Timely): seq<Move> {
    [AskGate, Acquire, Return(raw)]
  }

  function ToClearance(up: bool, now: int): seq<Move> {
    [Judge, ProbeEnds(up), GateLock(now)]
  }

  function ToBuffer(resolves: bool, inserts: bool): seq<Move> {
    [Resolve(resolves), Insert(inserts), Note]
  }

  function ToEnd(): seq<Move> {
    [Trigger, Release]
  }

  /** What the rest of the world makes of one execution. */
  datatype Course = Course(raw: Timely, up: bool, now: int, resolves: bool, inserts: bool)

  function AllMoves(w: Course): seq<Move> {
    ToVerdict(w.raw) + ToClearance(w.up, w.now) + ToBuffer(w.resolves, w.inserts) + ToEnd()
  }

  // ----- What each stretch does -----

  /** Execution i's stage, and what else is named, differs. */
  predicate At(a: Agent, b: Agent, i: nat, stage: Stage) {
    && i in b.execs && i in a.execs && b.execs == a.execs[i := a.execs[i].(stage := stage)]
    && b.rep == a.rep && b.clock == a.clock
  }

  predicate Gone(a: Agent, b: Agent, i: nat) {
    b.execs == a.execs - {i} && b.rep == a.rep && b.clock == a.clock
  }

  predicate SameBooks(a: Agent, b: Agent) {
    b.db == a.db && b.lastStatus == a.lastStatus && b.token == a.token
  }

  predicate Front(c: Config, a: Agent, b: Agent, i: nat, raw: Timely) {
    && SameBooks(a, b) && b.gate == a.gate
    && if c.gated && !a.gate.online then Gone(a, b, i) && b.inFlight == a.inFlight
       else At(a, b, i, Judging(raw, a.clock)) && b.inFlight == a.inFlight + 1
  }

  predicate Middle(c: Config, a: Agent, b: Agent, i: nat, raw: Timely, t: nat, up: bool, now: int)
    requires i in a.execs
  {
    var doubted, probe := c.gated && IsTransportFailure(raw), Probe(a.clock, up, a.execs[i].cancelled);
    && SameBooks(a, b) && b.inFlight == a.inFlight
    && b.gate == (if doubted then Observe(a.gate, Verdict(Reached(probe), now)) else a.gate)
    && if doubted && !Reached(probe) then At(a, b, i, Releasing)
       else At(a, b, i, Resolving(raw, t, if doubted then Some(probe) else None))
  }

  /** Whether the verdict differs from the last one noted for the check. */
  predicate Changes(lastStatus: map<int, bool>, id: int, success: bool) {
    id !in lastStatus || lastStatus[id] != success
  }

  predicate Back(a: Agent, b: Agent, i: nat, raw: Timely, check: Check, stored: bool) {
    var result := Cooked(check, raw);
    && b.gate == a.gate && b.token == a.token && b.inFlight == a.inFlight
    && if !stored || raw.guid !in a.db.checks then At(a, b, i, Releasing) && SameBooks(a, b)
       else
         && Buffered(a.db, result) == Some(b.db) && b.lastStatus == a.lastStatus[check.id := result.success]
         && At(a, b, i, if Changes(a.lastStatus, check.id, result.success) then Flushing(b.db.lastResultId)
                        else Releasing)
  }

  predicate End(a: Agent, b: Agent, i: nat, flushing: bool) {
    && Gone(a, b, i) && b.inFlight == a.inFlight - 1
    && b.db == a.db && b.gate == a.gate && b.lastStatus == a.lastStatus && b.token == (a.token || flushing)
  }

  lemma FrontAlone(c: Config, a: Agent, i: nat, raw: Timely)
    requires i in a.execs && a.execs[i].stage == Asking && a.inFlight < Slots(c)
    ensures Front(c, a, Play(c, a, i, ToVerdict(raw)), i, raw)
  {
    PlayThree(c, a, i, AskGate, Acquire, Return(raw));
  }

  lemma ProbeAlone(c: Config, a: Agent, i: nat, raw: Timely, t: nat, up: bool, now: int)
    requires i in a.execs && a.execs[i].stage == Judging(raw, t) && c.gated && IsTransportFailure(raw)
    ensures Middle(c, a, Moved(c, Moved(c, Moved(c, a, i, Judge), i, ProbeEnds(up)), i, GateLock(now)),
                   i, raw, t, up, now)
  {
  }

  lemma MiddleAlone(c: Config, a: Agent, i: nat, raw: Timely, t: nat, up: bool, now: int)
    requires i in a.execs && a.execs[i].stage == Judging(raw, t)
    ensures Middle(c, a, Play(c, a, i, ToClearance(up, now)), i, raw, t, up, now)
  {
    PlayThree(c, a, i, Judge, ProbeEnds(up), GateLock(now));
    if c.gated && IsTransportFailure(raw) {
      ProbeAlone(c, a, i, raw, t, up, now);
    }
  }

  lemma ResolveAlone(c: Config, a: Agent, i: nat, raw: Timely)
    requires i in a.execs && a.execs[i].stage.Resolving? && a.execs[i].stage.raw == raw && raw.guid in a.db.checks
    ensures
      var b := Moved(c, a, i, Resolve(true));
      && SameBooks(a, b) && b.gate == a.gate && b.inFlight == a.inFlight
      && At(a, b, i, Inserting(raw, a.execs[i].stage.failedAt, a.execs[i].stage.found, a.db.checks[raw.guid].id))
  {
  }

  lemma StoreAlone(c: Config, a: Agent, i: nat, raw: Timely)
    requires i in a.execs && a.execs[i].stage.Inserting? && a.execs[i].stage.raw == raw
    ensures
      var b := Moved(c, a, i, Insert(true));
      var result := Cooked(a.execs[i].check, raw);
      && b.db == Inserted(a.db, a.execs[i].stage.checkId, result) && b.lastStatus == a.lastStatus
      && At(a, b, i, Noting(b.db.lastResultId, result.success))
      && b.gate == a.gate && b.token == a.token && b.inFlight == a.inFlight
  {
  }

  lemma InsertAlone(c: Config, a: Agent, i: nat, raw: Timely)
    requires i in a.execs && a.execs[i].stage.Resolving? && a.execs[i].stage.raw == raw && raw.guid in a.db.checks
    ensures
      var b := Moved(c, Moved(c, a, i, Resolve(true)), i, Insert(true));
      var result := Cooked(a.execs[i].check, raw);
      && Buffered(a.db, result) == Some(b.db) && b.lastStatus == a.lastStatus
      && At(a, b, i, Noting(b.db.lastResultId, result.success))
      && b.gate == a.gate && b.token == a.token && b.inFlight == a.inFlight
  {
    ResolveAlone(c, a, i, raw);
    StoreAlone(c, Moved(c, a, i, Resolve(true)), i, raw);
  }

  lemma NotStoredAlone(c: Config, a: Agent, i: nat, raw: Timely, resolves: bool, inserts: bool)
    requires i in a.execs && a.execs[i].stage.Resolving? && a.execs[i].stage.raw == raw
    requires !(resolves && inserts) || raw.guid !in a.db.checks
    ensures Back(a, Moved(c, Moved(c, Moved(c, a, i, Resolve(resolves)), i, Insert(inserts)), i, Note),
                 i, raw, a.execs[i].check, resolves && inserts)
  {
  }

  lemma NoteAlone(c: Config, a: Agent, i: nat, row: int, success: bool)
    requires i in a.execs && a.execs[i].stage == Noting(row, success)
    ensures
      var b := Moved(c, a, i, Note);
      && b.lastStatus == a.lastStatus[a.execs[i].check.id := success] && b.db == a.db
      && At(a, b, i, if Changes(a.lastStatus, a.execs[i].check.id, success) then Flushing(row) else Releasing)
      && b.gate == a.gate && b.token == a.token && b.inFlight == a.inFlight
  {
  }

  lemma BackAlone(c: Config, a: Agent, i: nat, raw: Timely, check: Check, resolves: bool, inserts: bool)
    requires i in a.execs && a.execs[i].stage.Resolving? && a.execs[i].stage.raw == raw && a.execs[i].check == check
    ensures Back(a, Play(c, a, i, ToBuffer(resolves, inserts)), i, raw, check, resolves && inserts)
  {
    PlayThree(c, a, i, Resolve(resolves), Insert(inserts), Note);
    if resolves && inserts && raw.guid in a.db.checks {
      var b := Moved(c, Moved(c, a, i, Resolve(true)), i, Insert(true));
      InsertAlone(c, a, i, raw);
      NoteAlone(c, b, i, b.db.lastResultId, Cooked(check, raw).success);
    } else {
      NotStoredAlone(c, a, i, raw, resolves, inserts);
    }
  }

  lemma EndAlone(c: Config, a: Agent, i: nat)
    requires i in a.execs && (a.execs[i].stage.Flushing? || a.execs[i].stage.Releasing?) && a.inFlight > 0
    ensures End(a, Play(c, a, i, ToEnd()), i, a.execs[i].stage.Flushing?)
  {
    PlayOne(c, a, i, [], Trigger);
    PlayOne(c, a, i, [Trigger], Release);
    assert [] + [Trigger] == [Trigger] && [Trigger] + [Release] == ToEnd();
  }

  /** An execution over or discarded has no part in buffering. */
  lemma {:induction false} NothingLeft(c: Config, a: Agent, i: nat, moves: seq<Move>)
    requires i !in a.execs || (a.execs[i].stage == Releasing && forall m :: m in moves ==> m != Release)
    ensures Play(c, a, i, moves) == a
  {
    if moves != [] {
      var n := |moves| - 1;
      assert forall m :: m in moves[..n] ==> m in moves;
      NothingLeft(c, a, i, moves[..n]);
      assert moves[n] in moves;
    }
  }

  /** What a whole execution makes of the agent. */
  predicate Executes(c: Config, a: Agent, b: Agent, i: nat, w: Course)
    requires i in a.execs
  {
    var check, result := a.execs[i].check, Cooked(a.execs[i].check, w.raw);
    var skipped, reachable := c.gated && !a.gate.online, w.up && !a.execs[i].cancelled;
    var doubted := !skipped && c.gated && IsTransportFailure(w.raw);
    && Gone(a, b, i) && b.inFlight == a.inFlight
    && b.gate == (if doubted then Observe(a.gate, Verdict(reachable, w.now)) else a.gate)
    && if skipped || (doubted && !reachable) || w.raw.guid !in a.db.checks || !w.resolves || !w.inserts then
         SameBooks(a, b)
       else
         && Buffered(a.db, result) == Some(b.db)
         && b.lastStatus == a.lastStatus[check.id := result.success]
         && b.token == (a.token || Changes(a.lastStatus, check.id, result.success))
  }

  lemma StretchesJoin(c: Config, a: Agent, b1: Agent, b2: Agent, b3: Agent, b4: Agent, i: nat, w: Course)
    requires i in a.execs && !(c.gated && !a.gate.online)
    requires Front(c, a, b1, i, w.raw) && Middle(c, b1, b2, i, w.raw, a.clock, w.up, w.now)
    requires if b2.execs[i].stage == Releasing then b3 == b2
             else Back(b2, b3, i, w.raw, a.execs[i].check, w.resolves && w.inserts)
    requires End(b3, b4, i, b3.execs[i].stage.Flushing?)
    ensures Executes(c, a, b4, i, w)
  {
  }

  lemma RestAlone(c: Config, a: Agent, b1: Agent, b2: Agent, i: nat, w: Course)
    requires i in a.execs && !(c.gated && !a.gate.online)
    requires Front(c, a, b1, i, w.raw) && Middle(c, b1, b2, i, w.raw, a.clock, w.up, w.now)
    ensures Executes(c, a, Play(c, Play(c, b2, i, ToBuffer(w.resolves, w.inserts)), i, ToEnd()), i, w)
  {
    var m := ToBuffer(w.resolves, w.inserts);
    var b3 := Play(c, b2, i, m);
    if b2.execs[i].stage == Releasing {
      NothingLeft(c, b2, i, m);
    } else {
      BackAlone(c, b2, i, w.raw, a.execs[i].check, w.resolves, w.inserts);
    }
    EndAlone(c, b3, i);
    StretchesJoin(c, a, b1, b2, b3, Play(c, b3, i, ToEnd()), i, w);
  }

  /** With a slot free and nothing in between, an execution is gone in the end, its
      slot given back; nothing changes but the gate when the run is skipped,
      discarded or not stored; otherwise its result is buffered, its verdict noted,
      and the reporter signalled exactly when that verdict is a change. */
  lemma AloneIs(c: Config, a: Agent, i: nat, w: Course)
    requires i in a.execs && a.execs[i].stage == Asking && a.inFlight < Slots(c)
    ensures Executes(c, a, Play(c, a, i, AllMoves(w)), i, w)
  {
    var m1, m2, m3, m4 := ToVerdict(w.raw), ToClearance(w.up, w.now), ToBuffer(w.resolves, w.inserts), ToEnd();
    PlayJoins(c, a, i, m1, m2);
    PlayJoins(c, a, i, m1 + m2, m3);
    PlayJoins(c, a, i, m1 + m2 + m3, m4);
    var b1 := Play(c, a, i, m1);
    FrontAlone(c, a, i, w.raw);
    if c.gated && !a.gate.online {
      NothingLeft(c, b1, i, m2);
      NothingLeft(c, b1, i, m3);
      NothingLeft(c, b1, i, m4);
    } else {
      MiddleAlone(c, b1, i, w.raw, a.clock, w.up, w.now);
      RestAlone(c, a, b1, Play(c, b1, i, m2), i, w);
    }
  }

  /** The objects the sequential execute works on are in the agent's state. */
  ghost predicate Matches(c: Config, a: Agent, runner: Runner, store: Store, gate: ConnectivityGate?)
    reads runner, store, gate
  {
    && store.State() == a.db && runner.lastStatus == a.lastStatus
    && (gate != null <==> c.gated) && (gate != null ==> gate.State() == a.gate)
  }

  function CourseOf(w: World): Course
    requires MIN_INSTANT <= w.raw.ranAt < MAX_INSTANT
  {
    Course(w.raw, Answers(w.probeReplaced, w.answers), w.now, !w.lookupFails, !w.insertFails)
  }

  /** Runs the sequential execute and arrives where the machine's steps, played with
      nothing in between, do: same database, same verdicts noted, same gate, same
      signal, and the slot given back. */
  method AloneIsExecute(c: Config, ghost a: Agent, ghost i: nat, runner: Runner, store: Store, gate: ConnectivityGate?,
                        check: Check, w: World, token: bool)
    returns (outcome: Execution.Outcome, flush: Option<bool>)
    requires i in a.execs && a.execs[i] == Exec(check, Asking, w.cancelled) && a.inFlight < Slots(c) && a.token == token
    requires w.acquires && MIN_INSTANT <= w.raw.ranAt < MAX_INSTANT
    requires store.Valid() && Matches(c, a, runner, store, gate)
    modifies runner`lastStatus, store, gate
    ensures
      var b := Play(c, a, i, AllMoves(CourseOf(w)));
      && Matches(c, b, runner, store, gate) && flush == Some(b.token)
      && b.execs == a.execs - {i} && b.inFlight == a.inFlight
  {
    outcome, flush := Execute(runner, store, gate, check, w, Some(token));
    AloneIs(c, a, i, CourseOf(w));
  }
}
