/** What brings the agent forward: the timer, the shutdown's last drain, the purge,
    the gate's recheck, and a restart after a crash. */
module Recovery {
  import opened Base
  import opened Checks
  import opened Timestamp
  import opened Tables
  import opened Reporter
  import opened Agent
  import opened DrainAlone
  import AgentSafety
  import Delivery
  import Execution

  // ----- The reporter's loop -----

  /** The pass under way is the last one exactly when the agent is stopping, and the
      reporter leaves through it only. */
  ghost predicate LeavesThroughFinal(a: Agent) {
    (a.rep.pc.Exited? ==> a.rep.final) && (a.rep.pc.Waiting? || a.rep.pc.Purging? ==> !a.rep.final)
  }

  lemma FinalReport(a: Agent, r: Report)
    requires LeavesThroughFinal(a)
    ensures
      var b := ReportStep(a, r);
      && LeavesThroughFinal(b) && (b.rep.final && !a.rep.final ==> r == Stop)
      && (b.rep.pc.Exited? && !a.rep.pc.Exited? ==>
            a.rep.final && (a.rep.pc.Listing? || a.rep.pc.Posting? || a.rep.pc.Marking?))
  {
  }

  lemma FinalNext(c: Config, a: Agent, e: Event)
    requires LeavesThroughFinal(a)
    ensures
      var b := Next(c, a, e);
      && LeavesThroughFinal(b) && (b.rep.final && !a.rep.final ==> e == Reports(Stop))
      && (b.rep.pc.Exited? && !a.rep.pc.Exited? ==>
            a.rep.final && (a.rep.pc.Listing? || a.rep.pc.Posting? || a.rep.pc.Marking?))
  {
    match e
    case Go(i, m) => if i in a.execs { GoLeaves(c, a, i, m); }
    case Reports(r) => FinalReport(a, r);
    case _ =>
  }

  lemma {:induction false} RunFinal(c: Config, events: seq<Event>)
    ensures LeavesThroughFinal(After(c, events))
  {
    if events != [] {
      RunFinal(c, events[..|events| - 1]);
      FinalNext(c, After(c, events[..|events| - 1]), events[|events| - 1]);
    }
  }

  /** Turns of an undisturbed pass, begun by `r` while the reporter waited. */
  ghost predicate Woken(a: Agent, r: Report, states: seq<Agent>) {
    && a.rep.pc.Waiting? && states != [] && states[0] == ReportStep(a, r)
    && (forall i: nat :: i + 1 < |states| ==> TurnAt(states, i))
    && |states| == |Backlog(a.db)| / REPORT_BATCH_SIZE + 2
  }

  lemma WokenPass(a: Agent, r: Report, states: seq<Agent>)
    requires Woken(a, r, states) && Sound(a.db)
    requires r == WakeByTimer || r == Stop || (r == WakeByToken && a.token)
    ensures Undisturbed(states) && states[0].db == a.db && states[0].rep.began == a.db.lastResultId
    ensures states[0].rep.final <==> r == Stop
    ensures states[0].token <==> a.token && r != WakeByToken
  {
  }

  /** With no signal at all, the timer alone drains everything eligible and the
      reporter waits again; a signal does so too, and is used up by it. */
  lemma TimerDrains(c: Config, events: seq<Event>, r: Report, states: seq<Agent>)
    requires Woken(After(c, events), r, states)
    requires r == WakeByTimer || (r == WakeByToken && After(c, events).token)
    ensures
      var done := ReportStep(states[|states| - 1], Purge(None));
      && done.rep.pc == Waiting && Backlog(done.db) == [] && done.rep.failedUpTo == After(c, events).rep.failedUpTo
  {
    ReachedSound(c, events);
    WokenPass(After(c, events), r, states);
    PassIsReportOnce(states);
  }

  /** A shutdown drains everything eligible before the reporter is gone. */
  lemma StopDrains(c: Config, events: seq<Event>, states: seq<Agent>)
    requires Woken(After(c, events), Stop, states)
    ensures states[|states| - 1].rep.pc == Exited && Backlog(states[|states| - 1].db) == []
  {
    ReachedSound(c, events);
    WokenPass(After(c, events), Stop, states);
    PassIsReportOnce(states);
  }

  /** A lost reply: the batch has reached the server, and yet every row of it is still
      to be listed again. Delivery is at least once, not once. */
  lemma LostReplyComesAgain(c: Config, events: seq<Event>, row: BufRow)
    requires After(c, events).rep.pc.Posting? && row in After(c, events).rep.pc.batch
    ensures
      var a, b := After(c, events), After(c, events + [Reports(Post(PostOutcome.ReplyLost))]);
      && row in b.log.delivered && b.db == a.db && b.rep.failedUpTo >= b.rep.began
      && (b.rep.pc == if a.rep.final then Exited else Purging)
  {
    var e := Reports(Post(PostOutcome.ReplyLost));
    assert (events + [e])[..|events|] == events;
  }

  /** A purge leaves no sent result of a second before the cutoff's, and every other. */
  lemma PurgeClears(c: Config, events: seq<Event>, cutoff: Instant, row: BufRow)
    requires After(c, events).rep.pc.Purging? && row in After(c, events).db.buffer
    ensures
      var a, b := After(c, events), After(c, events + [Reports(Purge(Some(cutoff)))]);
      && row.id in a.log.written && b.rep.pc == Waiting
      && (row in b.db.buffer <==> !(row.sent && a.log.written[row.id].raw.ranAt / SECOND < cutoff / SECOND))
  {
    var e := Reports(Purge(Some(cutoff)));
    var a := After(c, events);
    assert (events + [e])[..|events|] == events;
    Delivery.RunKeeps(c, events);
    AgentSafety.VerdictsHold(c, events);
    assert Delivery.RowSound(a.log, row);
    var w := a.log.written[row.id];
    assert AgentSafety.Justified(c, w);
    PurgeExact(row, w.raw.ranAt, cutoff);
  }

  // ----- The gate and the statuses -----

  /** A shut gate reopens at its own recheck as soon as the internet answers, and the
      outage is timed from when it shut. */
  lemma RecheckReopens(c: Config, a: Agent, now: int)
    requires !a.gate.online
    ensures
      var b := Next(c, a, Recheck(true, now));
      && b.gate.online && b.gate.lastOutage.Some?
      && b.gate.lastOutage.value.endedAt == now && b.gate.lastOutage.value.duration == now - a.gate.offlineSince
  {
  }

  /** The next verdict noted for a check is a change, and signalled, when its status
      was forgotten or the process is new; after that only a different one is. */
  lemma NewStatusSignals(c: Config, a: Agent, i: nat, row: int, success: bool)
    requires i in a.execs && a.execs[i].stage == Noting(row, success)
    ensures
      var b := Next(c, a, Go(i, Note));
      var id := a.execs[i].check.id;
      && i in b.execs
      && (b.execs[i].stage == Flushing(row) <==> id !in a.lastStatus || a.lastStatus[id] != success)
      && (b.execs[i].stage == Releasing <==> id in a.lastStatus && a.lastStatus[id] == success)
      && id in b.lastStatus && b.lastStatus[id] == success
      && (forall other :: other != id ==>
            (other in b.lastStatus <==> other in a.lastStatus)
            && (other in a.lastStatus ==> b.lastStatus[other] == a.lastStatus[other]))
  {
  }

  /** Forgetting one status leaves the others. */
  lemma ForgetIsOne(c: Config, a: Agent, id: int)
    ensures
      var b := Next(c, a, Forget(id));
      && id !in b.lastStatus
      && forall other :: other != id ==>
           (other in b.lastStatus <==> other in a.lastStatus)
           && (other in a.lastStatus ==> b.lastStatus[other] == a.lastStatus[other])
  {
  }

  /** One told to stop while it waits for a slot leaves without one; one that was not
      goes on waiting. */
  lemma LeavesWaitingIff(c: Config, a: Agent, i: nat)
    requires i in a.execs && a.execs[i].stage.Acquiring?
    ensures
      var b := Next(c, a, Go(i, GiveUp));
      && (i !in b.execs <==> a.execs[i].cancelled)
      && (i in b.execs ==> b.execs[i] == a.execs[i])
      && b.inFlight == a.inFlight && b.db == a.db
  {
  }

  // ----- After a crash -----

  lemma Restarted(c: Config, events: seq<Event>)
    ensures
      var a, b := After(c, events), After(c, events + [Crash]);
      && b.db == a.db && b.execs == map[] && b.inFlight == 0 && b.lastStatus == map[]
      && b.gate.online && b.gate.lastOutage.None? && !b.token && b.rep.pc == Waiting
  {
    assert (events + [Crash])[..|events|] == events;
  }

  /** Whatever was going on, after a crash the timer alone drains everything that was
      eligible when it struck. */
  lemma CrashThenDrain(c: Config, events: seq<Event>, states: seq<Agent>)
    requires Woken(After(c, events + [Crash]), WakeByTimer, states)
    ensures After(c, events + [Crash]).db == After(c, events).db
    ensures Backlog(ReportStep(states[|states| - 1], Purge(None)).db) == []
  {
    Restarted(c, events);
    TimerDrains(c, events + [Crash], WakeByTimer, states);
  }

  // ----- A result's way through -----

  /** Over any run, while its check keeps its rowid a listed result goes out as the
      execution had it, column by column: the guid, the second, the status and the
      latency as they were, the verdict flipped for an inverted check, the texts cut
      to the check's limit. */
  lemma GoesOutAs(c: Config, events: seq<Event>, row: BufRow, out: Result)
    requires
      var a := After(c, events);
      && row in a.db.buffer && row.id in a.log.written
      && var g := a.log.written[row.id].raw.guid;
         g in a.db.checks && a.db.checks[g].id == row.checkId
    requires IsWire(After(c, events).db.checks, row, out)
    ensures
      var w := After(c, events).log.written[row.id];
      var n := w.check.meta.resultDetailMaxChars;
      && out.guid == w.raw.guid && out.ranAt == w.raw.ranAt / SECOND * SECOND
      && out.httpStatus == w.raw.httpStatus && out.latencyMs == w.raw.latencyMs
      && (out.success <==> (w.raw.success != w.check.content.invertResult))
      && out.responseSample == Execution.Utf8.Truncated(w.raw.responseSample, n)
      && (!(w.check.content.invertResult && w.raw.success) ==> out.error == Execution.Utf8.Truncated(w.raw.error, n))
  {
    var a := After(c, events);
    var w := a.log.written[row.id];
    ReachedSound(c, events);
    Delivery.RunKeeps(c, events);
    AgentSafety.VerdictsHold(c, events);
    assert Delivery.RowSound(a.log, row);
    assert AgentSafety.Justified(c, w);
    Execution.CookedVerdict(w.check, w.raw);
    ListedAsBuffered(a.db.checks, row.id, Execution.Cooked(w.check, w.raw), out);
  }
}
