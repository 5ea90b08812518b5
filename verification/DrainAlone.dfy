/** The steps of a reporting pass in the agent's state machine, played with nothing
    in between and no fault, are the sequential reportOnce. */
module DrainAlone {
  import opened Base
  import opened Tables
  import opened Reporter
  import opened Agent
  import AgentSafety
  import Delivery
  import Execution

  /** One turn of the loop; a step the reporter is not up to changes nothing. */
  function Turn(a: Agent): Agent {
    ReportStep(ReportStep(ReportStep(a, List(true)), Post(Accepted)), Mark(true))
  }

  ghost predicate TurnAt(states: seq<Agent>, i: nat)
    requires i + 1 < |states|
  {
    states[i + 1] == Turn(states[i])
  }

  ghost predicate Sound(db: DB) {
    Tables.Valid(db) && AllReadable(db.buffer)
  }

  /** The agent at the start of a pass and after each turn of it. */
  ghost predicate Undisturbed(states: seq<Agent>) {
    && states != [] && states[0].rep.pc == Listing(true) && Sound(states[0].db)
    && forall i: nat :: i + 1 < |states| ==> TurnAt(states, i)
  }

  /** What one turn makes of the database and the pass. */
  ghost predicate Turned(a: Agent, b: Agent) {
    var rows := NextBatch(a.db);
    if rows == [] && a.rep.pc == Listing(false) then
      b.db == a.db && b.rep == EndPass(a, false).rep
    else
      && b.db == MarkBatch(a.db)
      && b.rep == (if |rows| < REPORT_BATCH_SIZE then EndPass(a, false).rep else a.rep.(pc := Listing(false)))
  }

  lemma OneTurn(a: Agent)
    requires a.rep.pc.Listing? && AllReadable(NextBatch(a.db))
    ensures Turned(a, Turn(a))
  {
    var rows := NextBatch(a.db);
    var listed := ReportStep(a, List(true));
    if !(rows == [] && a.rep.pc == Listing(false)) {
      assert listed.rep == a.rep.(pc := Posting(rows)) && listed.db == a.db;
    }
  }

  lemma TurnedAt(states: seq<Agent>, i: nat)
    requires Undisturbed(states) && i + 1 < |states|
    requires states[i].rep.pc.Listing? && AllReadable(NextBatch(states[i].db))
    ensures Turned(states[i], states[i + 1])
  {
    assert TurnAt(states, i);
    OneTurn(states[i]);
  }

  /** After k full batches the pass is about to list again, and the database is the
      one reportOnce has reached. */
  ghost predicate Full(a: Agent, b: Agent, k: nat) {
    && b.db == DrainTo(a.db, k) && b.rep == a.rep.(pc := Listing(k == 0))
  }

  lemma OneMoreFull(a: Agent, b: Agent, c: Agent, k: nat)
    requires Full(a, b, k) && Turned(b, c)
    requires NextBatch(b.db) == Batch(Backlog(a.db), k) && REPORT_BATCH_SIZE * (k + 1) <= |Backlog(a.db)|
    ensures Full(a, c, k + 1)
  {
    assert |NextBatch(b.db)| == REPORT_BATCH_SIZE;
  }

  lemma BatchAt(db: DB, k: nat)
    requires Sound(db)
    ensures NextBatch(DrainTo(db, k)) == Batch(Backlog(db), k) && AllReadable(NextBatch(DrainTo(db, k)))
  {
    DrainForm(db, k);
    NoFaults(db, k);
  }

  lemma NextTurn(states: seq<Agent>, k: nat)
    requires Undisturbed(states) && k + 1 < |states| && Full(states[0], states[k], k)
    ensures Turned(states[k], states[k + 1])
    ensures NextBatch(states[k].db) == Batch(Backlog(states[0].db), k)
  {
    BatchAt(states[0].db, k);
    TurnedAt(states, k);
  }

  lemma NextFull(states: seq<Agent>, k: nat)
    requires Undisturbed(states) && k + 1 < |states| && Full(states[0], states[k], k)
    requires REPORT_BATCH_SIZE * (k + 1) <= |Backlog(states[0].db)|
    ensures Full(states[0], states[k + 1], k + 1)
  {
    NextTurn(states, k);
    OneMoreFull(states[0], states[k], states[k + 1], k);
  }

  lemma {:induction false} FullTurns(states: seq<Agent>, k: nat)
    requires Undisturbed(states) && k < |states| && REPORT_BATCH_SIZE * k <= |Backlog(states[0].db)|
    ensures Full(states[0], states[k], k)
  {
    if k > 0 {
      FullTurns(states, k - 1);
      NextFull(states, k - 1);
    }
  }

  lemma LastTurn(a: Agent, b: Agent, c: Agent, k: nat)
    requires Full(a, b, k) && Turned(b, c)
    requires NextBatch(b.db) == Batch(Backlog(a.db), k) && k == |Backlog(a.db)| / REPORT_BATCH_SIZE
    ensures c.db == DrainTo(a.db, Rounds(|Backlog(a.db)|))
    ensures c.rep == EndPass(a, false).rep
  {
    var n := |Backlog(a.db)|;
    ShortBatchIsLast(n, k);
    if n == REPORT_BATCH_SIZE * k && k > 0 {
      assert Rounds(n) == k;
    } else {
      assert Rounds(n) == k + 1;
    }
  }

  /** An undisturbed pass ends, without error, one turn after its full batches, with
      exactly the backlog marked sent and so nothing eligible left. */
  lemma PassIsReportOnce(states: seq<Agent>)
    requires Undisturbed(states) && |states| == |Backlog(states[0].db)| / REPORT_BATCH_SIZE + 2
    ensures
      var a, b := states[0], states[|states| - 1];
      && b.db == DrainTo(a.db, Rounds(|Backlog(a.db)|))
      && b.rep == EndPass(a, false).rep
      && Backlog(b.db) == []
  {
    var db := states[0].db;
    var k := |states| - 2;
    FullTurns(states, k);
    NextTurn(states, k);
    LastTurn(states[0], states[k], states[k + 1], k);
    NothingAfter(db);
  }

  lemma NothingAfter(db: DB)
    requires Sound(db)
    ensures Backlog(DrainTo(db, Rounds(|Backlog(db)|))) == []
  {
    DrainForm(db, Rounds(|Backlog(db)|));
  }

  // ----- Every agent reached can be drained so -----

  lemma ChecksNext(c: Config, a: Agent, e: Event)
    requires ValidChecks(a.db.checks)
    ensures ValidChecks(Next(c, a, e).db.checks)
  {
    match e
    case Go(i, m) => if i in a.execs { GoLeaves(c, a, i, m); }
    case Reports(r) => ReportLeaves(a, r);
    case Sync(delta, _) => ApplyWritesValid(a.db.checks, DeltaWrites(delta));
    case ImportCheck(check) => ApplyWriteValid(a.db.checks, Import(check));
    case _ =>
  }

  lemma {:induction false} ChecksValid(c: Config, events: seq<Event>)
    ensures ValidChecks(After(c, events).db.checks)
  {
    if events != [] {
      ChecksValid(c, events[..|events| - 1]);
      ChecksNext(c, After(c, events[..|events| - 1]), events[|events| - 1]);
    }
  }

  lemma WrittenReadable(c: Config, w: Written)
    requires AgentSafety.Justified(c, w)
    ensures Readable(w.row)
  {
    BufferedIsReadable(w.row.id, w.row.checkId, Execution.Cooked(w.check, w.raw));
  }

  /** In every reachable state the tables are valid and every stored time parses, so
      no listing fails on a row. */
  lemma ReachedSound(c: Config, events: seq<Event>)
    ensures Sound(After(c, events).db)
  {
    var a := After(c, events);
    ChecksValid(c, events);
    Delivery.RunKeeps(c, events);
    AgentSafety.VerdictsHold(c, events);
    forall row | row in a.db.buffer ensures Readable(row) {
      assert Delivery.RowSound(a.log, row);
      WrittenReadable(c, a.log.written[row.id]);
    }
  }
}
