/** What no interleaving of executions can break: the bound on checks in flight,
    and no failure on record that might be the agent's own. */
module AgentSafety {
  import opened Base
  import opened Checks
  import opened Timestamp
  import opened Tables
  import opened Execution
  import opened Agent
  import Gate

  // ----- The semaphore -----

  predicate Holds(s: Stage) {
    !s.Asking? && !s.Acquiring?
  }

  /** The executions past the semaphore and not yet done. */
  function Holders(execs: map<nat, Exec>): set<nat> {
    set i | i in execs && Holds(execs[i].stage)
  }

  /** Every slot taken is some execution's, and there are no more than there are. */
  ghost predicate SlotsHeld(c: Config, a: Agent) {
    |Holders(a.execs)| == a.inFlight <= Slots(c)
  }

  lemma HoldersAt(execs: map<nat, Exec>, i: nat, e: Exec)
    ensures Holders(execs[i := e]) == if Holds(e.stage) then Holders(execs) + {i} else Holders(execs) - {i}
  {
  }

  lemma HoldersLeave(execs: map<nat, Exec>, i: nat)
    ensures Holders(execs - {i}) == Holders(execs) - {i}
  {
  }

  /** A move takes a slot on entering the semaphore and gives it back on the way out. */
  lemma GoCounts(c: Config, a: Agent, i: nat, m: Move)
    requires i in a.execs && a.inFlight <= Slots(c) && (Holds(a.execs[i].stage) ==> a.inFlight > 0)
    ensures
      var b := GoStep(c, a, i, m);
      && b.inFlight <= Slots(c)
      && b.inFlight + (if Holds(a.execs[i].stage) then 1 else 0)
         == a.inFlight + if i in b.execs && Holds(b.execs[i].stage) then 1 else 0
  {
  }

  lemma SlotsGo(c: Config, a: Agent, i: nat, m: Move)
    requires SlotsHeld(c, a) && i in a.execs
    ensures SlotsHeld(c, GoStep(c, a, i, m))
  {
    var b := GoStep(c, a, i, m);
    assert Holds(a.execs[i].stage) <==> i in Holders(a.execs);
    GoCounts(c, a, i, m);
    GoTouchesOne(c, a, i, m);
    HoldersLeave(a.execs, i);
    if i in b.execs {
      HoldersAt(a.execs, i, b.execs[i]);
    }
  }

  lemma SlotsNext(c: Config, a: Agent, e: Event)
    requires SlotsHeld(c, a)
    ensures SlotsHeld(c, Next(c, a, e))
  {
    match e
    case Start(i, check) => HoldersAt(a.execs, i, Exec(check, Asking, false));
    case Cancel(i) => if i in a.execs { HoldersAt(a.execs, i, a.execs[i].(cancelled := true)); }
    case Go(i, m) => if i in a.execs { SlotsGo(c, a, i, m); }
    case Reports(r) => ReportLeaves(a, r);
    case _ =>
  }

  lemma {:induction false} SlotsBounded(c: Config, events: seq<Event>)
    ensures SlotsHeld(c, After(c, events))
  {
    if events != [] {
      SlotsBounded(c, events[..|events| - 1]);
      SlotsNext(c, After(c, events[..|events| - 1]), events[|events| - 1]);
    }
  }

  // ----- The verdict -----

  /** Nothing came back from the target: on the raw columns, whatever inversion and
      the detail limit make of them later. */
  predicate Ambiguous(c: Config, raw: Result) {
    c.gated && !raw.success && raw.httpStatus == 0 && raw.responseSample == []
  }

  /** Of two probes and a failure: a probe cleared it if it began after it and
      answered. */
  predicate ClearedBy(failedAt: nat, probe: Probe) {
    probe.began > failedAt && probe.up && !probe.cancelled
  }

  /** An ambiguous result counts only once cleared, and no other is ever probed. */
  predicate Cleared(c: Config, raw: Result, failedAt: nat, found: Option<Probe>) {
    if Ambiguous(c, raw) then found.Some? && ClearedBy(failedAt, found.value) else found.None?
  }

  predicate StageSound(c: Config, s: Stage, clock: nat) {
    match s
    case Judging(_, t) => t < clock
    case Probing(raw, t, began) => t < began && Ambiguous(c, raw)
    case Observing(raw, t, probe) => t < probe.began && Ambiguous(c, raw)
    case Resolving(raw, t, found) => Cleared(c, raw, t, found)
    case Inserting(raw, t, found, _) => Cleared(c, raw, t, found)
    case _ => true
  }

  ghost predicate ExecsSound(c: Config, a: Agent) {
    forall i :: i in a.execs ==> StageSound(c, a.execs[i].stage, a.clock)
  }

  /** A result on record is cleared, and its verdict is the raw one, flipped exactly
      for an inverted check. */
  predicate Justified(c: Config, w: Written) {
    && MIN_INSTANT <= w.raw.ranAt < MAX_INSTANT
    && Cleared(c, w.raw, w.failedAt, w.found)
    && w.row == NewBufRow(w.row.id, w.row.checkId, Cooked(w.check, w.raw))
    && w.row.success == (w.raw.success != w.check.content.invertResult)
  }

  /** A result thrown away was ambiguous, and the probe begun after it did not get
      through. */
  predicate RightlyDiscarded(c: Config, d: Discard) {
    Ambiguous(c, d.raw) && d.probe.began > d.failedAt && !(d.probe.up && !d.probe.cancelled)
  }

  ghost predicate AllJustified(c: Config, a: Agent) {
    && (forall k :: k in a.log.written ==> Justified(c, a.log.written[k]))
    && (forall n :: 0 <= n < |a.log.discarded| ==> RightlyDiscarded(c, a.log.discarded[n]))
  }

  lemma SoundProbe(c: Config, a: Agent, i: nat, m: Move)
    requires i in a.execs && StageSound(c, a.execs[i].stage, a.clock)
    requires m.Judge? || m.ProbeEnds? || m.GateLock?
    ensures
      var b := GoStep(c, a, i, m);
      i in b.execs && StageSound(c, b.execs[i].stage, a.clock + 1)
  {
  }

  lemma SoundStage(c: Config, a: Agent, i: nat, m: Move)
    requires i in a.execs && StageSound(c, a.execs[i].stage, a.clock)
    ensures
      var b := GoStep(c, a, i, m);
      i in b.execs ==> StageSound(c, b.execs[i].stage, a.clock + 1)
  {
    if m.Judge? || m.ProbeEnds? || m.GateLock? {
      SoundProbe(c, a, i, m);
    }
  }

  lemma SoundNext(c: Config, a: Agent, e: Event)
    requires ExecsSound(c, a)
    ensures ExecsSound(c, Next(c, a, e))
  {
    var b := Next(c, a, e);
    if e.Go? && e.i in a.execs {
      GoTouchesOne(c, a, e.i, e.move);
      SoundStage(c, a, e.i, e.move);
    } else if e.Reports? {
      ReportLeaves(a, e.report);
    }
    forall j | j in b.execs ensures StageSound(c, b.execs[j].stage, b.clock) {
      assert j in a.execs ==> StageSound(c, a.execs[j].stage, a.clock);
    }
  }

  lemma JustifiedInsert(c: Config, a: Agent, i: nat)
    requires AllJustified(c, a) && i in a.execs && a.execs[i].stage.Inserting?
    requires StageSound(c, a.execs[i].stage, a.clock)
    ensures AllJustified(c, InsertRow(a, i))
  {
    CookedVerdict(a.execs[i].check, a.execs[i].stage.raw);
  }

  /** A result is thrown away only under the gate's lock, after a probe. */
  lemma DiscardGo(c: Config, a: Agent, i: nat, m: Move)
    requires i in a.execs && StageSound(c, a.execs[i].stage, a.clock)
    ensures
      var before, after := a.log.discarded, GoStep(c, a, i, m).log.discarded;
      after == before || exists d :: after == before + [d] && RightlyDiscarded(c, d)
  {
    if m.GateLock? && a.execs[i].stage.Observing? && !Reached(a.execs[i].stage.probe) {
      var s := a.execs[i].stage;
      assert RightlyDiscarded(c, Discard(s.raw, s.failedAt, s.probe));
    }
  }

  lemma JustifiedGo(c: Config, a: Agent, i: nat, m: Move)
    requires AllJustified(c, a) && i in a.execs && StageSound(c, a.execs[i].stage, a.clock)
    ensures AllJustified(c, GoStep(c, a, i, m))
  {
    if a.execs[i].stage.Inserting? && m == Insert(true) {
      JustifiedInsert(c, a, i);
    } else {
      OnlyInsertWrites(c, a, i, m);
      DiscardGo(c, a, i, m);
    }
  }

  lemma JustifiedNext(c: Config, a: Agent, e: Event)
    requires ExecsSound(c, a) && AllJustified(c, a)
    ensures AllJustified(c, Next(c, a, e))
  {
    if e.Go? && e.i in a.execs {
      JustifiedGo(c, a, e.i, e.move);
    } else if e.Reports? {
      ReportLeaves(a, e.report);
    }
  }

  lemma {:induction false} VerdictsHold(c: Config, events: seq<Event>)
    ensures ExecsSound(c, After(c, events)) && AllJustified(c, After(c, events))
  {
    if events != [] {
      VerdictsHold(c, events[..|events| - 1]);
      var a, e := After(c, events[..|events| - 1]), events[|events| - 1];
      SoundNext(c, a, e);
      JustifiedNext(c, a, e);
    }
  }

  lemma OnColumns(c: Config, a: Agent)
    requires AllJustified(c, a)
    ensures forall k :: k in a.log.written ==>
      var w := a.log.written[k];
      && (w.found.Some? <==> c.gated && !w.raw.success && w.raw.httpStatus == 0 && w.raw.responseSample == [])
      && (w.found.Some? ==> w.found.value.began > w.failedAt && w.found.value.up && !w.found.value.cancelled)
      && (w.row.success <==> (w.raw.success != w.check.content.invertResult))
    ensures a.log.discarded != [] ==> c.gated
    ensures forall n :: 0 <= n < |a.log.discarded| ==>
      var d := a.log.discarded[n];
      && !d.raw.success && d.raw.httpStatus == 0 && d.raw.responseSample == []
      && d.probe.began > d.failedAt && (!d.probe.up || d.probe.cancelled)
  {
    forall k | k in a.log.written ensures Justified(c, a.log.written[k]) {
    }
    forall n | 0 <= n < |a.log.discarded| ensures RightlyDiscarded(c, a.log.discarded[n]) {
    }
    if a.log.discarded != [] {
      assert RightlyDiscarded(c, a.log.discarded[0]);
    }
  }

  /** Gate safety. In every interleaving: the slots taken are exactly the executions
      past the semaphore, never more than configured (twenty when that is not
      positive). Behind a gate, a result that failed with no status and no sample
      was written only after a probe, begun after it, that answered, whatever the
      check's inversion or its detail limit make of the row, and thrown away only
      after one that did not; and a result that succeeded, or has a status or a
      sample, was neither probed nor thrown away. */
  lemma GateSafety(c: Config, events: seq<Event>)
    ensures
      var a := After(c, events);
      && |Holders(a.execs)| == a.inFlight <= (if c.concurrency <= 0 then 20 else c.concurrency)
      && (forall k :: k in a.log.written ==>
            var w := a.log.written[k];
            && (w.found.Some? <==> c.gated && !w.raw.success && w.raw.httpStatus == 0 && w.raw.responseSample == [])
            && (w.found.Some? ==>
                  w.found.value.began > w.failedAt && w.found.value.up && !w.found.value.cancelled)
            && (w.row.success <==> (w.raw.success != w.check.content.invertResult)))
      && (a.log.discarded != [] ==> c.gated)
      && (forall n :: 0 <= n < |a.log.discarded| ==>
            var d := a.log.discarded[n];
            && !d.raw.success && d.raw.httpStatus == 0 && d.raw.responseSample == []
            && d.probe.began > d.failedAt && (!d.probe.up || d.probe.cancelled))
  {
    SlotsBounded(c, events);
    VerdictsHold(c, events);
    OnColumns(c, After(c, events));
  }

  // ----- When the gate is shut -----

  function Verdicts(findings: seq<Finding>): (vs: seq<Gate.Verdict>)
    ensures |vs| == |findings| && forall i :: 0 <= i < |vs| ==> vs[i] == VerdictOf(findings[i])
  {
    seq(|findings|, i requires 0 <= i < |findings| => VerdictOf(findings[i]))
  }

  /** The gate is what its verdicts, in the order they took the lock, make it. */
  ghost predicate GateExplained(a: Agent) {
    a.gate == Gate.After(Verdicts(a.log.findings))
  }

  lemma FoundExplained(a: Agent, f: Finding)
    requires GateExplained(a)
    ensures GateExplained(Found(a, f))
  {
    var before, after := Verdicts(a.log.findings), Verdicts(a.log.findings + [f]);
    assert after == before + [VerdictOf(f)];
    assert after[..|after| - 1] == before;
  }

  /** Of an execution's steps only the one under the gate's lock moves it. */
  lemma OnlyLockMovesGate(c: Config, a: Agent, i: nat, m: Move)
    requires i in a.execs && !(m.GateLock? && a.execs[i].stage.Observing?)
    ensures GoStep(c, a, i, m).gate == a.gate && GoStep(c, a, i, m).log.findings == a.log.findings
  {
  }

  lemma ExplainedGo(c: Config, a: Agent, i: nat, m: Move)
    requires GateExplained(a) && i in a.execs
    ensures GateExplained(GoStep(c, a, i, m))
  {
    if m.GateLock? && a.execs[i].stage.Observing? {
      var probe := a.execs[i].stage.probe;
      FoundExplained(a, Finding(probe.up, probe.cancelled, m.now));
    } else {
      OnlyLockMovesGate(c, a, i, m);
    }
  }

  lemma ExplainedNext(c: Config, a: Agent, e: Event)
    requires GateExplained(a)
    ensures GateExplained(Next(c, a, e))
  {
    match e
    case Go(i, m) => if i in a.execs { ExplainedGo(c, a, i, m); }
    case Recheck(up, now) => FoundExplained(a, Finding(up, false, now));
    case Reports(r) => ReportLeaves(a, r);
    case _ =>
  }

  lemma {:induction false} RunExplained(c: Config, events: seq<Event>)
    ensures GateExplained(After(c, events))
  {
    if events != [] {
      RunExplained(c, events[..|events| - 1]);
      ExplainedNext(c, After(c, events[..|events| - 1]), events[|events| - 1]);
    }
  }

  /** In every interleaving the gate is shut iff the last verdict it took in this
      process came of a probe that the internet would not have answered, or whose
      execution had been cancelled by then. */
  lemma ShutIff(c: Config, events: seq<Event>)
    ensures
      var a := After(c, events);
      var n := |a.log.findings|;
      !a.gate.online <==> n > 0 && (!a.log.findings[n - 1].up || a.log.findings[n - 1].cancelled)
  {
    RunExplained(c, events);
    var findings := After(c, events).log.findings;
    Gate.GateHistory(Verdicts(findings));
  }
}
