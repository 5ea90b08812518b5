/** No lost wakeup: the flush channel holds one signal and signalling never
    blocks, yet no status transition is left to wait for the timer. */
module Wakeup {
  import opened Base
  import opened Checks
  import opened Timestamp
  import opened Tables
  import opened Reporter
  import opened Agent
  import Delivery

  // ----- A transition noted is a transition signalled -----

  ghost predicate StillFlushing(execs: map<nat, Exec>, k: int) {
    exists i :: i in execs && execs[i].stage == Flushing(k)
  }

  /** A transition row's execution is about to signal, or has. */
  ghost predicate Signalled(a: Agent) {
    forall k :: k in a.log.changed ==> k in a.log.awake || StillFlushing(a.execs, k)
  }

  lemma StageKept(c: Config, a: Agent, i: nat, m: Move, k: int)
    requires i in a.execs && a.execs[i].stage == Flushing(k)
    ensures
      var b := GoStep(c, a, i, m);
      k in b.log.awake || (i in b.execs && b.execs[i].stage == Flushing(k))
  {
  }

  lemma ChangeNoted(c: Config, a: Agent, i: nat, m: Move, k: int)
    requires i in a.execs
    ensures
      var b := GoStep(c, a, i, m);
      && a.log.awake <= b.log.awake
      && (k in b.log.changed && k !in a.log.changed ==> i in b.execs && b.execs[i].stage == Flushing(k))
  {
  }

  lemma SignalledGo(c: Config, a: Agent, i: nat, m: Move)
    requires Signalled(a) && i in a.execs
    ensures Signalled(GoStep(c, a, i, m))
  {
    var b := GoStep(c, a, i, m);
    GoTouchesOne(c, a, i, m);
    forall k | k in b.log.changed && k !in b.log.awake ensures StillFlushing(b.execs, k) {
      ChangeNoted(c, a, i, m, k);
      if k in a.log.changed {
        var j :| j in a.execs && a.execs[j].stage == Flushing(k);
        if j == i {
          StageKept(c, a, i, m, k);
        } else {
          assert j in b.execs && b.execs[j] == a.execs[j];
        }
      }
    }
  }

  lemma SignalledNext(c: Config, a: Agent, e: Event)
    requires Signalled(a)
    ensures Signalled(Next(c, a, e))
  {
    var b := Next(c, a, e);
    if e.Go? && e.i in a.execs {
      SignalledGo(c, a, e.i, e.move);
      assert b.execs == GoStep(c, a, e.i, e.move).execs;
    } else if !e.Crash? {
      if e.Reports? {
        ReportLeaves(a, e.report);
      }
      forall k | k in b.log.changed && k !in b.log.awake ensures StillFlushing(b.execs, k) {
        var j :| j in a.execs && a.execs[j].stage == Flushing(k);
        assert j in b.execs && b.execs[j].stage == a.execs[j].stage;
      }
    }
  }

  // ----- A signalled transition is covered -----

  ghost predicate UnsentRow(buffer: seq<BufRow>, k: int) {
    exists row :: row in buffer && row.id == k && !row.sent
  }

  /** The pass will list row k, or has it in its batch; after a full batch it lists
      again. */
  predicate WillReach(pc: Pc, k: int) {
    pc.Listing? || ((pc.Posting? || pc.Marking?) && (k in Ids(pc.batch) || |pc.batch| >= REPORT_BATCH_SIZE))
  }

  predicate Covered(a: Agent, k: int) {
    a.token || k <= a.rep.failedUpTo || (k <= a.rep.began && WillReach(a.rep.pc, k))
  }

  /** Row k still has to be uploaded by this process. */
  ghost predicate Waits(a: Agent, k: int) {
    UnsentRow(a.db.buffer, k) && k !in a.log.missed && a.rep.pc != Exited
  }

  ghost predicate Heard(a: Agent) {
    forall k :: k in a.log.awake && Waits(a, k) ==> Covered(a, k)
  }

  ghost predicate RowsKnown(a: Agent) {
    && (forall k :: k in a.log.awake ==> k <= a.db.lastResultId)
    && (forall i :: i in a.execs && a.execs[i].stage.Noting? ==> a.execs[i].stage.row <= a.db.lastResultId)
    && (forall i :: i in a.execs && a.execs[i].stage.Flushing? ==> a.execs[i].stage.row <= a.db.lastResultId)
  }

  lemma KnownGo(c: Config, a: Agent, i: nat, m: Move)
    requires RowsKnown(a) && i in a.execs
    ensures RowsKnown(GoStep(c, a, i, m))
  {
    GoTouchesOne(c, a, i, m);
  }

  lemma KnownNext(c: Config, a: Agent, e: Event)
    requires RowsKnown(a)
    ensures RowsKnown(Next(c, a, e))
  {
    if e.Go? && e.i in a.execs {
      KnownGo(c, a, e.i, e.move);
    } else if e.Reports? {
      ReportLeaves(a, e.report);
    }
  }

  /** What an execution does to a row already waiting: at most signal. */
  lemma HeardGo(c: Config, a: Agent, i: nat, m: Move)
    requires Heard(a) && RowsKnown(a) && i in a.execs
    ensures Heard(GoStep(c, a, i, m))
  {
    var b := GoStep(c, a, i, m);
    GoLeaves(c, a, i, m);
    if !(m == Trigger && a.execs[i].stage.Flushing?) {
      QuietGo(c, a, i, m);
      forall k | k in b.log.awake && Waits(b, k) ensures Covered(b, k) {
        assert UnsentRow(a.db.buffer, k) && Waits(a, k);
      }
    }
  }

  lemma QuietGo(c: Config, a: Agent, i: nat, m: Move)
    requires i in a.execs && !(m == Trigger && a.execs[i].stage.Flushing?)
    ensures
      var b := GoStep(c, a, i, m);
      && b.log.awake == a.log.awake && b.token == a.token
      && forall k :: k <= a.db.lastResultId && UnsentRow(b.db.buffer, k) ==> UnsentRow(a.db.buffer, k)
  {
    if a.execs[i].stage.Inserting? && m == Insert(true) {
      var b := GoStep(c, a, i, m);
      forall k | k <= a.db.lastResultId && UnsentRow(b.db.buffer, k) ensures UnsentRow(a.db.buffer, k) {
        var row :| row in b.db.buffer && row.id == k && !row.sent;
        assert row in a.db.buffer;
      }
    } else {
      OnlyInsertWrites(c, a, i, m);
    }
  }

  /** A listing picks a waiting row up, or is full, or finds it without a check. */
  lemma ListedOrMissed(db: DB, k: int)
    requires UnsentRow(db.buffer, k) && k !in Unjoined(db)
    ensures
      var rows := Limit(Eligible(db.checks, db.buffer), REPORT_BATCH_SIZE);
      k in Ids(rows) || |rows| >= REPORT_BATCH_SIZE
  {
    var row :| row in db.buffer && row.id == k && !row.sent;
    EligibleIff(db.checks, db.buffer);
    assert row in Eligible(db.checks, db.buffer);
  }

  lemma HeardList(a: Agent, ok: bool)
    requires Heard(a) && a.rep.pc.Listing?
    ensures Heard(ListStep(a, ok))
  {
    var b := ListStep(a, ok);
    ListLeaves(a, ok);
    forall k | k in b.log.awake && Waits(b, k) ensures Covered(b, k) {
      assert Waits(a, k) && Covered(a, k);
      if b.rep.pc.Posting? || a.rep.pc.first == false {
        if k !in Unjoined(a.db) {
          ListedOrMissed(a.db, k);
        }
      }
    }
  }

  lemma MarkedIsSent(buffer: seq<BufRow>, ids: set<int>, k: int)
    requires UnsentRow(MarkSent(buffer, ids), k)
    ensures UnsentRow(buffer, k) && k !in ids
  {
    var out := MarkSent(buffer, ids);
    var row :| row in out && row.id == k && !row.sent;
    var i :| 0 <= i < |out| && out[i] == row;
    assert buffer[i] in buffer;
  }

  lemma HeardMark(a: Agent, ok: bool)
    requires Heard(a) && a.rep.pc.Marking?
    ensures Heard(MarkStep(a, ok))
  {
    var b := MarkStep(a, ok);
    forall k | k in b.log.awake && Waits(b, k) ensures Covered(b, k) {
      if ok {
        MarkedIsSent(a.db.buffer, Ids(a.rep.pc.batch), k);
      }
      assert Waits(a, k) && Covered(a, k);
    }
  }

  lemma HeardPost(a: Agent, outcome: PostOutcome)
    requires Heard(a) && a.rep.pc.Posting?
    ensures Heard(PostStep(a, outcome))
  {
    var b := PostStep(a, outcome);
    forall k | k in b.log.awake && Waits(b, k) ensures Covered(b, k) {
      assert Waits(a, k) && Covered(a, k);
    }
  }

  lemma HeardPurge(a: Agent, cutoff: Option<Instant>)
    requires Heard(a) && a.rep.pc.Purging?
    ensures Heard(PurgeStep(a, cutoff))
  {
    var b := PurgeStep(a, cutoff);
    forall k | k in b.log.awake && Waits(b, k) ensures Covered(b, k) {
      assert Waits(a, k) && Covered(a, k);
    }
  }

  /** A pass begins after every row signalled so far was buffered. */
  lemma HeardBegin(a: Agent, b: Agent, final: bool)
    requires RowsKnown(a)
    requires b == Begin(a, final) || b == Begin(a, final).(token := false)
    ensures Heard(b)
  {
    forall k | k in b.log.awake && Waits(b, k) ensures Covered(b, k) {
      assert k in a.log.awake && k <= a.db.lastResultId;
    }
  }

  lemma HeardReport(a: Agent, r: Report)
    requires Heard(a) && RowsKnown(a)
    ensures Heard(ReportStep(a, r))
  {
    match r
    case List(ok) => if a.rep.pc.Listing? { HeardList(a, ok); }
    case Post(outcome) => if a.rep.pc.Posting? { HeardPost(a, outcome); }
    case Mark(ok) => if a.rep.pc.Marking? { HeardMark(a, ok); }
    case Purge(cutoff) => if a.rep.pc.Purging? { HeardPurge(a, cutoff); }
    case _ => if a.rep.pc.Waiting? && ReportStep(a, r) != a { HeardBegin(a, ReportStep(a, r), r.Stop?); }
  }

  lemma HeardNext(c: Config, a: Agent, e: Event)
    requires Heard(a) && RowsKnown(a)
    ensures Heard(Next(c, a, e))
  {
    var b := Next(c, a, e);
    if e.Go? && e.i in a.execs {
      HeardGo(c, a, e.i, e.move);
      HeardSame(GoStep(c, a, e.i, e.move), b);
    } else if e.Reports? {
      HeardReport(a, e.report);
      HeardSame(ReportStep(a, e.report), b);
    } else if !e.Crash? {
      HeardSame(a, b);
    }
  }

  lemma HeardSame(a: Agent, b: Agent)
    requires Heard(a)
    requires b.db.buffer == a.db.buffer && b.rep == a.rep && b.token == a.token
    requires b.log.awake == a.log.awake && b.log.missed == a.log.missed
    ensures Heard(b)
  {
    forall k | k in b.log.awake && Waits(b, k) ensures Covered(b, k) {
      assert Waits(a, k) && Covered(a, k);
    }
  }

  // ----- And only a row passed over is not -----

  /** A row passed over is out of reach of the pass that did so. */
  ghost predicate MissedOut(a: Agent) {
    && (forall k :: k in a.log.missed ==> !WillReach(a.rep.pc, k))
    && (a.rep.pc.Posting? || a.rep.pc.Marking? ==> |a.rep.pc.batch| >= REPORT_BATCH_SIZE ==> a.log.missed == {})
  }

  /** A listed row has its check, so no row with its id is passed over. */
  lemma ListedNotUnjoined(db: DB, k: int)
    requires ValidBuffer(db.buffer, db.lastResultId)
    requires k in Ids(Limit(Eligible(db.checks, db.buffer), REPORT_BATCH_SIZE))
    ensures k !in Unjoined(db)
  {
    var rows := Limit(Eligible(db.checks, db.buffer), REPORT_BATCH_SIZE);
    var row :| row in rows && row.id == k;
    assert row in Eligible(db.checks, db.buffer);
    EligibleIff(db.checks, db.buffer);
    forall other | other in db.buffer && other.id == k ensures other == row {
      SameIdSameRow(db.buffer, db.lastResultId, other, row);
    }
  }

  lemma MissedOutList(a: Agent, ok: bool)
    requires MissedOut(a) && a.rep.pc.Listing? && ValidBuffer(a.db.buffer, a.db.lastResultId)
    ensures MissedOut(ListStep(a, ok))
  {
    var b := ListStep(a, ok);
    assert a.log.missed == {} by {
      forall k ensures k !in a.log.missed {
        assert WillReach(a.rep.pc, k);
      }
    }
    forall k | k in b.log.missed ensures !WillReach(b.rep.pc, k) {
      if b.rep.pc.Posting? && k in Ids(b.rep.pc.batch) {
        ListedNotUnjoined(a.db, k);
      }
    }
  }

  lemma MissedOutReport(a: Agent, r: Report)
    requires MissedOut(a) && ValidBuffer(a.db.buffer, a.db.lastResultId)
    ensures MissedOut(ReportStep(a, r))
  {
    if r.List? && a.rep.pc.Listing? {
      MissedOutList(a, r.ok);
    } else {
      var b := ReportStep(a, r);
      forall k | k in b.log.missed ensures !WillReach(b.rep.pc, k) {
        assert k in a.log.missed && !WillReach(a.rep.pc, k);
      }
    }
  }

  lemma MissedOutNext(c: Config, a: Agent, e: Event)
    requires MissedOut(a) && ValidBuffer(a.db.buffer, a.db.lastResultId)
    ensures MissedOut(Next(c, a, e))
  {
    var b := Next(c, a, e);
    match e
    case Go(i, m) => if i in a.execs { GoLeaves(c, a, i, m); }
    case Reports(r) => MissedOutReport(a, r);
    case _ =>
  }

  lemma {:induction false} RunMissedOut(c: Config, events: seq<Event>)
    ensures MissedOut(After(c, events))
  {
    if events != [] {
      var front := events[..|events| - 1];
      RunMissedOut(c, front);
      Delivery.RunKeeps(c, front);
      MissedOutNext(c, After(c, front), events[|events| - 1]);
    }
  }

  lemma {:induction false} RunHeard(c: Config, events: seq<Event>)
    ensures Heard(After(c, events)) && RowsKnown(After(c, events)) && Signalled(After(c, events))
  {
    if events != [] {
      RunHeard(c, events[..|events| - 1]);
      var a, e := After(c, events[..|events| - 1]), events[|events| - 1];
      HeardNext(c, a, e);
      KnownNext(c, a, e);
      SignalledNext(c, a, e);
    }
  }

  /** What a listing that succeeds leaves uncovered: of the rows waiting, those it
      found without a check, when it was not a full one. */
  lemma UncoveredIff(a: Agent, k: int)
    requires Waits(a, k) && a.rep.pc.Listing? && k <= a.rep.began && !a.token && a.rep.failedUpTo < k
    requires
      var rows := Limit(Eligible(a.db.checks, a.db.buffer), REPORT_BATCH_SIZE);
      AllReadable(rows) && ValidBuffer(a.db.buffer, a.db.lastResultId)
    ensures
      var rows := Limit(Eligible(a.db.checks, a.db.buffer), REPORT_BATCH_SIZE);
      Covered(ListStep(a, true), k) <==> k !in Unjoined(a.db) || |rows| >= REPORT_BATCH_SIZE
  {
    var rows := Limit(Eligible(a.db.checks, a.db.buffer), REPORT_BATCH_SIZE);
    if k !in Unjoined(a.db) {
      ListedOrMissed(a.db, k);
    } else {
      var row :| row in a.db.buffer && !row.sent && !Joined(a.db.checks, row.checkId) && row.id == k;
      EligibleIff(a.db.checks, a.db.buffer);
      forall r | r in rows ensures r.id != k {
        assert r in Eligible(a.db.checks, a.db.buffer);
        if r.id == k {
          SameIdSameRow(a.db.buffer, a.db.lastResultId, r, row);
        }
      }
    }
  }

  /** No lost wakeup, exactly. In every interleaving, while the reporter has not
      exited: take a row noted as a status transition whose execution has gone past
      its signal, and which is still unsent. Then the channel holds a token, or a
      pass begun after the row was buffered is in progress and will reach it, or
      such a pass ended in an error; unless the last short listing of the latest
      pass found the row without a check, and then, but for a token or a failed
      pass, nothing is under way for it. */
  lemma NoLostWakeup(c: Config, events: seq<Event>, row: BufRow)
    requires
      var a := After(c, events);
      && row.id in a.log.changed && !StillFlushing(a.execs, row.id)
      && row in a.db.buffer && !row.sent && a.rep.pc != Exited
    ensures
      var a := After(c, events);
      var passWillReach := a.rep.began >= row.id
        && (a.rep.pc.Listing?
            || ((a.rep.pc.Posting? || a.rep.pc.Marking?)
                && (row.id in Ids(a.rep.pc.batch) || |a.rep.pc.batch| >= REPORT_BATCH_SIZE)));
      && (row.id !in a.log.missed ==> a.token || passWillReach || a.rep.failedUpTo >= row.id)
      && (row.id in a.log.missed ==> !passWillReach)
  {
    RunHeard(c, events);
    RunMissedOut(c, events);
    var a := After(c, events);
    assert row.id in a.log.awake;
    assert row.id !in a.log.missed ==> Waits(a, row.id);
  }

  /** The same as one condition: such a row is covered iff it was not passed over, or
      a token or a failed pass stands in. */
  lemma CoveredIff(c: Config, events: seq<Event>, row: BufRow)
    requires
      var a := After(c, events);
      && row.id in a.log.changed && !StillFlushing(a.execs, row.id)
      && row in a.db.buffer && !row.sent && a.rep.pc != Exited
    ensures
      var a := After(c, events);
      Covered(a, row.id) <==> row.id !in a.log.missed || a.token || row.id <= a.rep.failedUpTo
  {
    NoLostWakeup(c, events, row);
  }
}
