/** The agent's runs are runs of the database with its history: what is proved of
    attribution there holds of the agent in every interleaving. */
module Tracking {
  import opened Base
  import opened Checks
  import opened Timestamp
  import opened Tables
  import opened Reporter
  import opened Agent
  import opened Execution
  import AgentSafety
  import Attribution
  import Delivery
  import Recovery

  // ----- The statements of one event -----

  function Changing(ws: seq<Write>): (events: seq<Attribution.Event>)
    ensures |events| == |ws| && forall i :: 0 <= i < |ws| ==> events[i] == Attribution.Changes(ws[i])
  {
    seq(|ws|, i requires 0 <= i < |ws| => Attribution.Changes(ws[i]))
  }

  function OfMove(a: Agent, i: nat, m: Move): seq<Attribution.Event>
    requires i in a.execs
  {
    var e, s := a.execs[i], a.execs[i].stage;
    match m
    case Resolve(ok) =>
      if s.Resolving? && ok && s.raw.guid in a.db.checks then [Attribution.Looks(i, Cooked(e.check, s.raw))] else []
    case Insert(ok) => if s.Inserting? then [Attribution.Stores(i, ok)] else []
    case _ => []
  }

  function OfReport(a: Agent, r: Report): seq<Attribution.Event> {
    match r
    case Mark(ok) => if a.rep.pc.Marking? && ok then [Attribution.Marks(Ids(a.rep.pc.batch))] else []
    case Purge(cutoff) =>
      if a.rep.pc.Purging? && cutoff.Some? then [Attribution.Purges(FormatSecond(cutoff.value))] else []
    case _ => []
  }

  /** What an event of the agent does to the database. */
  ghost function Statements(a: Agent, e: Event): seq<Attribution.Event> {
    match e
    case Go(i, m) => if i in a.execs then OfMove(a, i, m) else []
    case Reports(r) => OfReport(a, r)
    case Sync(delta, _) => Changing(DeltaWrites(delta))
    case ImportCheck(check) => [Attribution.Changes(Import(check))]
    case Crash => [Attribution.Restarts]
    case _ => []
  }

  ghost function Trace(c: Config, events: seq<Event>): seq<Attribution.Event> {
    if events == [] then []
    else
      var front := events[..|events| - 1];
      Trace(c, front) + Statements(After(c, front), events[|events| - 1])
  }

  // ----- They follow each other -----

  ghost function Steps(s: Attribution.Tracked, events: seq<Attribution.Event>): Attribution.Tracked {
    if events == [] then s
    else Attribution.Step(Steps(s, events[..|events| - 1]), events[|events| - 1])
  }

  lemma {:induction false} AfterThen(first: seq<Attribution.Event>, later: seq<Attribution.Event>)
    ensures Attribution.After(first + later) == Steps(Attribution.After(first), later)
  {
    if later == [] {
      assert first + later == first;
    } else {
      var n := |later| - 1;
      AfterThen(first, later[..n]);
      assert first + later == (first + later[..n]) + [later[n]];
      Attribution.AfterSnoc(first + later[..n], later[n]);
    }
  }

  lemma {:induction false} StepsOfWrites(s: Attribution.Tracked, ws: seq<Write>)
    ensures
      var t := Steps(s, Changing(ws));
      && t.db.checks == ApplyWrites(s.db.checks, ws) && t.db.buffer == s.db.buffer
      && t.db.lastResultId == s.db.lastResultId && t.pending == s.pending && t.origin == s.origin
  {
    if ws != [] {
      var n := |ws| - 1;
      StepsOfWrites(s, ws[..n]);
      assert Changing(ws)[..n] == Changing(ws[..n]);
    }
  }

  lemma OneStep(s: Attribution.Tracked, e: Attribution.Event)
    ensures Steps(s, [e]) == Attribution.Step(s, e)
  {
    assert [e][..0] == [];
    assert Steps(s, [e][..0]) == s;
  }

  ghost predicate SameTables(a: Agent, s: Attribution.Tracked) {
    a.db.checks == s.db.checks && a.db.buffer == s.db.buffer && a.db.lastResultId == s.db.lastResultId
  }

  /** The results on their way in are those of the executions between lookup and
      insert. */
  ghost predicate SamePending(a: Agent, s: Attribution.Tracked) {
    && (forall i :: i in s.pending <==> i in a.execs && a.execs[i].stage.Inserting?)
    && (forall i :: i in s.pending ==>
          var e := a.execs[i];
          s.pending[i] == Attribution.Resolved(Cooked(e.check, e.stage.raw), e.stage.checkId))
  }

  /** Each result on record has its execution's guid. */
  ghost predicate SameOrigins(a: Agent, s: Attribution.Tracked) {
    forall k :: k in a.log.written ==> k in s.origin && s.origin[k] == a.log.written[k].raw.guid
  }

  ghost predicate Follows(a: Agent, s: Attribution.Tracked) {
    SameTables(a, s) && SamePending(a, s) && SameOrigins(a, s)
  }

  /** A move without a statement neither enters nor leaves the gap between lookup and
      insert. */
  lemma QuietMove(c: Config, a: Agent, i: nat, m: Move)
    requires i in a.execs && OfMove(a, i, m) == []
    ensures
      var b := GoStep(c, a, i, m);
      && b.db == a.db && b.log.written == a.log.written
      && (a.execs[i].stage.Inserting? ==> b == a)
      && (i in b.execs && b.execs[i].stage.Inserting? ==> a.execs[i].stage.Inserting?)
  {
  }

  lemma FollowsQuietly(c: Config, a: Agent, s: Attribution.Tracked, i: nat, m: Move)
    requires Follows(a, s) && i in a.execs && OfMove(a, i, m) == []
    ensures Follows(GoStep(c, a, i, m), s)
  {
    QuietMove(c, a, i, m);
    GoTouchesOne(c, a, i, m);
  }

  lemma FollowsLookup(c: Config, a: Agent, s: Attribution.Tracked, i: nat)
    requires Follows(a, s) && i in a.execs && OfMove(a, i, Resolve(true)) != []
    ensures Follows(GoStep(c, a, i, Resolve(true)), Attribution.Step(s, OfMove(a, i, Resolve(true))[0]))
  {
    CookedVerdict(a.execs[i].check, a.execs[i].stage.raw);
  }

  lemma FollowsLoss(c: Config, a: Agent, s: Attribution.Tracked, i: nat)
    requires Follows(a, s) && i in a.execs && a.execs[i].stage.Inserting?
    ensures Follows(GoStep(c, a, i, Insert(false)), Attribution.Store(s, i, false))
  {
  }

  /** What one insert is, on either side. */
  lemma RowStored(s: Attribution.Tracked, i: nat, p: Attribution.Resolved)
    requires i in s.pending && s.pending[i] == p && MIN_INSTANT <= p.result.ranAt < MAX_INSTANT
    ensures
      var t := Attribution.Store(s, i, true);
      && t.db == Inserted(s.db, p.checkId, p.result) && t.pending == s.pending - {i}
      && t.origin == s.origin[s.db.lastResultId + 1 := p.result.guid]
  {
  }

  lemma RowInserted(a: Agent, i: nat)
    requires i in a.execs && a.execs[i].stage.Inserting?
    ensures
      var b, k := InsertRow(a, i), a.db.lastResultId + 1;
      && b.db == Inserted(a.db, a.execs[i].stage.checkId, Cooked(a.execs[i].check, a.execs[i].stage.raw))
      && b.log.written == a.log.written[k := b.log.written[k]] && b.log.written[k].raw == a.execs[i].stage.raw
      && b.execs == a.execs[i := b.execs[i]] && !b.execs[i].stage.Inserting?
  {
  }

  lemma InsertedAlike(x: DB, y: DB, checkId: int, r: Result)
    requires x.checks == y.checks && x.buffer == y.buffer && x.lastResultId == y.lastResultId
    requires MIN_INSTANT <= r.ranAt < MAX_INSTANT
    ensures
      var v, w := Inserted(x, checkId, r), Inserted(y, checkId, r);
      v.checks == w.checks && v.buffer == w.buffer && v.lastResultId == w.lastResultId
  {
  }

  lemma OriginsGrow(a: Agent, s: Attribution.Tracked, b: Agent, t: Attribution.Tracked, k: int, guid: Bytes)
    requires SameOrigins(a, s) && t.origin == s.origin[k := guid]
    requires b.log.written.Keys == a.log.written.Keys + {k} && b.log.written[k].raw.guid == guid
    requires forall j :: j in a.log.written && j != k ==> b.log.written[j] == a.log.written[j]
    ensures SameOrigins(b, t)
  {
  }

  lemma FollowsRow(a: Agent, s: Attribution.Tracked, i: nat)
    requires Follows(a, s) && i in a.execs && a.execs[i].stage.Inserting?
    ensures Follows(InsertRow(a, i), Attribution.Store(s, i, true))
  {
    var b, t, p := InsertRow(a, i), Attribution.Store(s, i, true), s.pending[i];
    CookedVerdict(a.execs[i].check, a.execs[i].stage.raw);
    RowStored(s, i, p);
    RowInserted(a, i);
    InsertedAlike(a.db, s.db, p.checkId, p.result);
    OriginsGrow(a, s, b, t, a.db.lastResultId + 1, p.result.guid);
  }

  lemma FollowsMove(c: Config, a: Agent, s: Attribution.Tracked, i: nat, m: Move)
    requires Follows(a, s) && i in a.execs
    ensures Follows(GoStep(c, a, i, m), Steps(s, OfMove(a, i, m)))
  {
    var es := OfMove(a, i, m);
    if es == [] {
      FollowsQuietly(c, a, s, i, m);
    } else {
      OneStep(s, es[0]);
      assert es == [es[0]];
      match m
      case Resolve(_) => FollowsLookup(c, a, s, i);
      case Insert(ok) => if ok { FollowsRow(a, s, i); } else { FollowsLoss(c, a, s, i); }
    }
  }

  /** The reporter writes to the buffer only, and only to mark or to purge. */
  lemma ReportStatements(a: Agent, r: Report)
    ensures
      var b := ReportStep(a, r);
      b.db.buffer ==
        match r
        case Mark(ok) => if a.rep.pc.Marking? && ok then MarkSent(a.db.buffer, Ids(a.rep.pc.batch)) else a.db.buffer
        case Purge(cutoff) =>
          if a.rep.pc.Purging? && cutoff.Some? then Purged(a.db.buffer, FormatSecond(cutoff.value)) else a.db.buffer
        case _ => a.db.buffer
  {
  }

  lemma FollowsReport(a: Agent, s: Attribution.Tracked, r: Report)
    requires Follows(a, s)
    ensures Follows(ReportStep(a, r), Steps(s, OfReport(a, r)))
  {
    var es := OfReport(a, r);
    ReportLeaves(a, r);
    ReportStatements(a, r);
    if es != [] {
      OneStep(s, es[0]);
      assert es == [es[0]];
    }
  }

  lemma FollowsWrites(a: Agent, s: Attribution.Tracked, e: Event)
    requires Follows(a, s) && (e.Sync? || e.ImportCheck?)
    ensures Follows(Act(Config(0, false), a, e), Steps(s, Statements(a, e)))
  {
    match e
    case Sync(delta, _) => StepsOfWrites(s, DeltaWrites(delta));
    case ImportCheck(check) => OneStep(s, Attribution.Changes(Import(check)));
  }

  lemma FollowsCrash(a: Agent, s: Attribution.Tracked)
    requires Follows(a, s)
    ensures Follows(Restart(a), Attribution.Step(s, Attribution.Restarts))
  {
  }

  lemma FollowsAct(c: Config, a: Agent, s: Attribution.Tracked, e: Event)
    requires Follows(a, s) && (e.Start? || e.Cancel? || e.Forget? || e.Recheck?)
    ensures Follows(Act(c, a, e), s)
  {
  }

  lemma FollowsNext(c: Config, a: Agent, s: Attribution.Tracked, e: Event)
    requires Follows(a, s)
    ensures Follows(Next(c, a, e), Steps(s, Statements(a, e)))
  {
    match e
    case Go(i, m) => if i in a.execs { FollowsMove(c, a, s, i, m); }
    case Reports(r) => FollowsReport(a, s, r);
    case Sync(_, _) => FollowsWrites(a, s, e);
    case ImportCheck(_) => FollowsWrites(a, s, e);
    case Crash => OneStep(s, Attribution.Restarts); FollowsCrash(a, s);
    case _ => FollowsAct(c, a, s, e);
  }

  /** Every run of the agent is a run of the database with its history. */
  lemma {:induction false} RunFollows(c: Config, events: seq<Event>)
    ensures Follows(After(c, events), Attribution.After(Trace(c, events)))
  {
    if events != [] {
      var front, e := events[..|events| - 1], events[|events| - 1];
      RunFollows(c, front);
      FollowsNext(c, After(c, front), Attribution.After(Trace(c, front)), e);
      AfterThen(Trace(c, front), Statements(After(c, front), e));
    }
  }

  // ----- What follows for the agent -----

  /** Any listing now shows each result under the guid of its execution. */
  ghost predicate ListsRight(a: Agent) {
    forall row, out :: row in a.db.buffer && !row.sent && IsWire(a.db.checks, row, out) ==>
                         row.id in a.log.written && out.guid == a.log.written[row.id].raw.guid
  }

  lemma RowIsOnRecord(c: Config, events: seq<Event>, row: BufRow)
    requires row in After(c, events).db.buffer
    ensures row.id in After(c, events).log.written
    ensures exists t: Instant :: row.ranAt == FormatSecond(t)
  {
    Delivery.RunKeeps(c, events);
    AgentSafety.VerdictsHold(c, events);
    var a := After(c, events);
    assert Delivery.RowSound(a.log, row);
    var w := a.log.written[row.id];
    assert AgentSafety.Justified(c, w);
    assert row.ranAt == FormatSecond(w.raw.ranAt);
  }

  /** The listing of a row, were its check the one with guid g. */
  lemma WireOf(checks: CheckTable, row: BufRow, g: Bytes, t: Instant) returns (out: Result)
    requires g in checks && checks[g].id == row.checkId && row.ranAt == FormatSecond(t)
    ensures IsWire(checks, row, out) && out.guid == g
  {
    SecondRoundTrip(t);
    out := Result(g, t / SECOND * SECOND, row.success, row.httpStatus, row.latencyMs, row.error, row.responseSample);
  }

  lemma ListsRightIff(c: Config, events: seq<Event>)
    ensures ListsRight(After(c, events)) <==> Attribution.RowsRight(Attribution.After(Trace(c, events)))
  {
    var a, s := After(c, events), Attribution.After(Trace(c, events));
    RunFollows(c, events);
    forall row | row in a.db.buffer ensures row.id in a.log.written {
      RowIsOnRecord(c, events, row);
    }
    if ListsRight(a) {
      forall row, g | row in s.db.buffer && !row.sent && g in s.db.checks && s.db.checks[g].id == row.checkId
        ensures row.id in s.origin && s.origin[row.id] == g
      {
        RowIsOnRecord(c, events, row);
        var t: Instant :| row.ranAt == FormatSecond(t);
        var out := WireOf(a.db.checks, row, g, t);
      }
    }
  }

  /** In every interleaving of the agent: as long as no check is given a rowid under
      which another guid's unsent result waits, and no result lands once another guid
      has its rowid, every listing shows each result under its execution's guid. */
  lemma ListsRightWhile(c: Config, events: seq<Event>)
    requires Attribution.EverySafeForRows(Trace(c, events))
    ensures ListsRight(After(c, events))
  {
    var trace := Trace(c, events);
    Attribution.NeverMisuploadedIff(trace);
    assert trace[..|trace|] == trace;
    assert Attribution.RowsRight(Attribution.After(trace[..|trace|]));
    ListsRightIff(c, events);
  }

  /** With rowids never reused, in every interleaving an unsent result is listed
      exactly when its check was not removed, and then goes out as the execution had
      it, under the execution's guid. */
  lemma GoesOutRight(c: Config, events: seq<Event>, row: BufRow, out: Result)
    requires Attribution.NeverReused(Trace(c, events))
    requires row in After(c, events).db.buffer && !row.sent
    ensures
      var a := After(c, events);
      && row.id in a.log.written
      && (row in Eligible(a.db.checks, a.db.buffer) <==> row.checkId !in Attribution.After(Trace(c, events)).gone)
      && (IsWire(a.db.checks, row, out) ==>
            var w := a.log.written[row.id];
            && out.guid == w.raw.guid && out.ranAt == w.raw.ranAt / SECOND * SECOND
            && out.httpStatus == w.raw.httpStatus && out.latencyMs == w.raw.latencyMs
            && (out.success <==> (w.raw.success != w.check.content.invertResult)))
  {
    RunFollows(c, events);
    RowIsOnRecord(c, events, row);
    Attribution.RightGuid(Trace(c, events), row);
    if IsWire(After(c, events).db.checks, row, out) {
      Recovery.GoesOutAs(c, events, row, out);
    }
  }
}
