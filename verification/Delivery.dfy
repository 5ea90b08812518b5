/** At-least-once delivery: over every interleaving of executions, uploads that
    succeed, fail or lose their reply, failing marks, purges and crashes, no
    buffered result is lost before the server confirmed it. */
module Delivery {
  import opened Base
  import opened Checks
  import opened Timestamp
  import opened Tables
  import opened Reporter
  import opened Execution
  import opened Agent

  function Unsent(row: BufRow): BufRow {
    row.(sent := false)
  }

  /** As it was first buffered. */
  predicate AsWritten(log: Log, row: BufRow) {
    row.id in log.written && log.written[row.id].row == row
  }

  /** Results are numbered without a gap, and each is still to be sent or confirmed. */
  ghost predicate Accounted(log: Log, buffer: seq<BufRow>, last: nat) {
    && (forall k :: k in log.written <==> 1 <= k <= last)
    && (forall k :: k in log.written ==>
          var row := log.written[k].row;
          row.id == k && !row.sent && (row in buffer || row in log.confirmed))
  }

  /** A row marked sent was confirmed, and no row's result ever changes. */
  predicate RowSound(log: Log, row: BufRow) {
    AsWritten(log, Unsent(row)) && (row.sent ==> Unsent(row) in log.confirmed)
  }

  ghost predicate RowsSound(log: Log, buffer: seq<BufRow>) {
    forall row :: row in buffer ==> RowSound(log, row)
  }

  ghost predicate Genuine(log: Log) {
    log.confirmed <= log.delivered && forall row :: row in log.delivered ==> AsWritten(log, row)
  }

  ghost predicate BatchSound(log: Log, pc: Pc) {
    && (pc.Posting? ==> forall row :: row in pc.batch ==> AsWritten(log, row))
    && (pc.Marking? ==> forall row :: row in pc.batch ==> row in log.confirmed)
  }

  ghost predicate Kept(a: Agent) {
    && ValidBuffer(a.db.buffer, a.db.lastResultId)
    && Accounted(a.log, a.db.buffer, a.db.lastResultId)
    && RowsSound(a.log, a.db.buffer)
    && Genuine(a.log)
    && BatchSound(a.log, a.rep.pc)
  }

  lemma InBuffer(buffer: seq<BufRow>, last: nat, row: BufRow)
    requires ValidBuffer(buffer, last) && row in buffer
    ensures 1 <= row.id <= last
  {
    var i :| 0 <= i < |buffer| && buffer[i] == row;
  }

  lemma InsertKeeps(a: Agent, i: nat)
    requires Kept(a) && i in a.execs && a.execs[i].stage.Inserting?
    ensures Kept(InsertRow(a, i))
  {
    var b := InsertRow(a, i);
    var id := a.db.lastResultId + 1;
    var row := b.log.written[id].row;
    ValidAppend(a.db.buffer, a.db.lastResultId, row);
    assert id !in a.log.written;
    forall r | r in b.db.buffer ensures RowSound(b.log, r) {
      if r != row {
        assert r in a.db.buffer && RowSound(a.log, r);
      }
    }
    forall k | k in b.log.written
      ensures b.log.written[k].row.id == k && !b.log.written[k].row.sent
      ensures b.log.written[k].row in b.db.buffer || b.log.written[k].row in b.log.confirmed
    {
      assert b.db.buffer[|a.db.buffer|] == row;
    }
  }

  lemma EligibleAsWritten(a: Agent, rows: seq<BufRow>)
    requires Kept(a) && rows == Limit(Eligible(a.db.checks, a.db.buffer), REPORT_BATCH_SIZE)
    ensures forall row :: row in rows ==> AsWritten(a.log, row)
  {
    EligibleIff(a.db.checks, a.db.buffer);
    forall row | row in rows ensures AsWritten(a.log, row) {
      assert row in Eligible(a.db.checks, a.db.buffer);
      assert RowSound(a.log, row) && Unsent(row) == row;
    }
  }

  lemma ListKeeps(a: Agent, ok: bool)
    requires Kept(a) && a.rep.pc.Listing?
    ensures Kept(ListStep(a, ok))
  {
    EligibleAsWritten(a, Limit(Eligible(a.db.checks, a.db.buffer), REPORT_BATCH_SIZE));
    SameResults(a, ListStep(a, ok));
  }

  lemma PostKeeps(a: Agent, outcome: PostOutcome)
    requires Kept(a) && a.rep.pc.Posting?
    ensures Kept(PostStep(a, outcome))
  {
    var b := PostStep(a, outcome);
    forall row | row in b.db.buffer ensures RowSound(b.log, row) {
      assert RowSound(a.log, row);
    }
  }

  /** Marking a confirmed batch. */
  lemma MarkedSound(log: Log, buffer: seq<BufRow>, last: nat, batch: seq<BufRow>)
    requires ValidBuffer(buffer, last) && RowsSound(log, buffer) && Accounted(log, buffer, last) && Genuine(log)
    requires forall row :: row in batch ==> row in log.confirmed
    ensures RowsSound(log, MarkSent(buffer, Ids(batch)))
    ensures Accounted(log, MarkSent(buffer, Ids(batch)), last)
  {
    var out := MarkSent(buffer, Ids(batch));
    forall id | id in Ids(batch) ensures AsWritten(log, log.written[id].row) && log.written[id].row in log.confirmed {
      var row :| row in batch && row.id == id;
      assert AsWritten(log, row);
    }
    forall row | row in out ensures RowSound(log, row) {
      var i :| 0 <= i < |out| && out[i] == row;
      assert buffer[i] in buffer && RowSound(log, buffer[i]);
    }
    forall k | k in log.written ensures log.written[k].row in out || log.written[k].row in log.confirmed {
      var row := log.written[k].row;
      if row !in log.confirmed {
        var i :| 0 <= i < |buffer| && buffer[i] == row;
        assert out[i] == row;
      }
    }
  }

  lemma MarkKeeps(a: Agent, ok: bool)
    requires Kept(a) && a.rep.pc.Marking?
    ensures Kept(MarkStep(a, ok))
  {
    ValidMark(a.db.buffer, a.db.lastResultId, Ids(a.rep.pc.batch));
    MarkedSound(a.log, a.db.buffer, a.db.lastResultId, a.rep.pc.batch);
  }

  lemma PurgeKeeps(a: Agent, cutoff: Option<Instant>)
    requires Kept(a)
    ensures Kept(PurgeStep(a, cutoff))
  {
    if cutoff.Some? {
      ValidPurge(a.db.buffer, a.db.lastResultId, FormatSecond(cutoff.value));
    }
  }

  /** A step that leaves the results and their history alone. */
  lemma SameResults(a: Agent, b: Agent)
    requires Kept(a)
    requires b.db.buffer == a.db.buffer && b.db.lastResultId == a.db.lastResultId
    requires b.log.written == a.log.written && b.log.delivered == a.log.delivered && b.log.confirmed == a.log.confirmed
    requires b.rep.pc == a.rep.pc || BatchSound(a.log, b.rep.pc)
    ensures Kept(b)
  {
    forall row | row in b.db.buffer ensures RowSound(b.log, row) {
      assert RowSound(a.log, row);
    }
    forall row | row in b.log.delivered ensures AsWritten(b.log, row) {
      assert AsWritten(a.log, row);
    }
  }

  lemma ReportKeeps(a: Agent, r: Report)
    requires Kept(a)
    ensures Kept(ReportStep(a, r))
  {
    match r
    case List(ok) => if a.rep.pc.Listing? { ListKeeps(a, ok); }
    case Post(outcome) => if a.rep.pc.Posting? { PostKeeps(a, outcome); }
    case Mark(ok) => if a.rep.pc.Marking? { MarkKeeps(a, ok); }
    case Purge(cutoff) => PurgeKeeps(a, cutoff);
    case _ => SameResults(a, ReportStep(a, r));
  }

  lemma GoKeeps(c: Config, a: Agent, i: nat, m: Move)
    requires Kept(a) && i in a.execs
    ensures Kept(GoStep(c, a, i, m))
  {
    if a.execs[i].stage.Inserting? && m == Insert(true) {
      InsertKeeps(a, i);
    } else {
      OnlyInsertWrites(c, a, i, m);
      GoLeaves(c, a, i, m);
      SameResults(a, GoStep(c, a, i, m));
    }
  }

  lemma NextKeeps(c: Config, a: Agent, e: Event)
    requires Kept(a)
    ensures Kept(Next(c, a, e))
  {
    match e
    case Go(i, m) => if i in a.execs { GoKeeps(c, a, i, m); }
    case Reports(r) => ReportKeeps(a, r);
    case _ => 
  }

  lemma {:induction false} RunKeeps(c: Config, events: seq<Event>)
    ensures Kept(After(c, events))
  {
    if events != [] {
      RunKeeps(c, events[..|events| - 1]);
      NextKeeps(c, After(c, events[..|events| - 1]), events[|events| - 1]);
    }
  }

  /** Conservation. Every result ever buffered is, as it was buffered, still unsent
      in the table or in a batch the agent saw a 2xx for; so none is deleted
      unsent. Every row marked sent was confirmed, and what was confirmed reached
      the server as it was buffered. */
  lemma AtLeastOnce(c: Config, events: seq<Event>)
    ensures
      var a := After(c, events);
      && (forall k :: 1 <= k <= a.db.lastResultId ==>
            k in a.log.written && a.log.written[k].row.id == k && !a.log.written[k].row.sent
            && (a.log.written[k].row in a.db.buffer || a.log.written[k].row in a.log.confirmed))
      && (forall row :: row in a.db.buffer && row.sent ==> row.(sent := false) in a.log.confirmed)
      && a.log.confirmed <= a.log.delivered
      && (forall row :: row in a.log.delivered ==> row.id in a.log.written && a.log.written[row.id].row == row)
  {
    RunKeeps(c, events);
    var a := After(c, events);
    forall row | row in a.db.buffer ensures RowSound(a.log, row) {
    }
    forall row | row in a.log.delivered ensures AsWritten(a.log, row) {
    }
  }

  /** No result is lost to a later run: one unsent in the table after some events
      is still there unsent after any more, or has been confirmed. */
  lemma UnsentUntilConfirmed(c: Config, events: seq<Event>, more: seq<Event>, row: BufRow)
    requires row in After(c, events).db.buffer && !row.sent
    ensures
      var b := After(c, events + more);
      row in b.db.buffer || row in b.log.confirmed
  {
    RunKeeps(c, events);
    RunKeeps(c, events + more);
    var a := After(c, events);
    InBuffer(a.db.buffer, a.db.lastResultId, row);
    assert RowSound(a.log, row) && Unsent(row) == row;
    assert (events + more)[..|events|] == events;
    WrittenStays(c, events + more, |events|, row.id);
  }

  lemma WrittenNext(c: Config, a: Agent, e: Event, k: int)
    requires Kept(a) && k in a.log.written
    ensures
      var b := Next(c, a, e);
      k in b.log.written && b.log.written[k] == a.log.written[k]
  {
    if e.Go? && e.i in a.execs {
      if !(a.execs[e.i].stage.Inserting? && e.move == Insert(true)) {
        OnlyInsertWrites(c, a, e.i, e.move);
      }
    } else if e.Reports? {
      ReportLeaves(a, e.report);
    }
  }

  lemma {:induction false} WrittenStays(c: Config, events: seq<Event>, n: nat, k: int)
    requires n <= |events| && k in After(c, events[..n]).log.written
    ensures
      var a, b := After(c, events[..n]), After(c, events);
      k in b.log.written && b.log.written[k] == a.log.written[k]
  {
    if n == |events| {
      assert events[..n] == events;
    } else {
      var front := events[..|events| - 1];
      assert front[..n] == events[..n];
      WrittenStays(c, front, n, k);
      RunKeeps(c, front);
      WrittenNext(c, After(c, front), events[|events| - 1], k);
    }
  }
}
