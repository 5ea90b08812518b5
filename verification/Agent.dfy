/** The agent as one state machine: any number of executions (execute in
    monitor/runner.go), the reporter (monitor/reporter.go), the connectivity gate
    and the database, interleaved step by step. A step is what runs without
    another goroutine getting in between: one lock section, one channel
    operation, one SQL statement or transaction. */
module Agent {
  import opened Base
  import opened Checks
  import opened Timestamp
  import opened Tables
  import opened Gate
  import opened Reporter
  import opened Execution

  const DEFAULT_CONCURRENCY: nat := 20

  /** What NewRunner is given: the concurrency asked for, and whether there is a gate. */
  datatype Config = Config(concurrency: int, gated: bool)

  function Slots(c: Config): nat {
    if c.concurrency <= 0 then DEFAULT_CONCURRENCY else c.concurrency
  }

  type Timely = r: Result | MIN_INSTANT <= r.ranAt < MAX_INSTANT witness Result([], 0, false, 0, 0, [], [])

  /** A probe that has ended. Under a cancelled context no dial gets through. */
  datatype Probe = Probe(began: nat, up: bool, cancelled: bool)

  predicate Reached(p: Probe) {
    p.up && !p.cancelled
  }

  /** Where an execution stands: what it does next. `failedAt` is when the checker
      returned; `found` the probe that cleared the result, if one was needed. */
  datatype Stage =
    | Asking
    | Acquiring
    | Checking
    | Judging(raw: Timely, failedAt: nat)
    | Probing(raw: Timely, failedAt: nat, began: nat)
    | Observing(raw: Timely, failedAt: nat, probe: Probe)
    | Resolving(raw: Timely, failedAt: nat, found: Option<Probe>)
    | Inserting(raw: Timely, failedAt: nat, found: Option<Probe>, checkId: int)
    | Noting(row: int, success: bool)
    | Flushing(row: int)
    | Releasing

  /** A run of execute, and whether its context has been cancelled. */
  datatype Exec = Exec(check: Check, stage: Stage, cancelled: bool)

  datatype Pc =
    | Waiting
    | Listing(first: bool)
    | Posting(batch: seq<BufRow>)
    | Marking(batch: seq<BufRow>)
    | Purging
    | Exited

  /** The reporter. `began` is the last result there was when its pass began,
      `failedUpTo` the largest `began` of a pass that ended in an error. */
  datatype Rep = Rep(pc: Pc, final: bool, began: nat, failedUpTo: nat)

  /** A result as first buffered, and how it came about. */
  datatype Written = Written(row: BufRow, check: Check, raw: Result, failedAt: nat, found: Option<Probe>)

  datatype Discard = Discard(raw: Result, failedAt: nat, probe: Probe)

  /** One verdict the gate took: whether the internet would have answered, whether
      the probing execution had been cancelled, and the time read after it. */
  datatype Finding = Finding(up: bool, cancelled: bool, now: int)

  /** History, read by no step. Of this process: `changed`, the rows noted as status
      transitions, `awake`, those of them whose flush was signalled, `missed`, those
      of them that the last short listing of the latest pass saw unsent but without
      a check, and `findings`, the gate's verdicts in order. Of all time: `written`,
      the results buffered, `discarded`, those the gate had thrown away, with the
      probe that was the reason, `delivered`, the rows that reached the server,
      `confirmed`, those of batches the agent saw a 2xx for. */
  datatype Log = Log(changed: set<int>, awake: set<int>, missed: set<int>, findings: seq<Finding>,
                     written: map<int, Written>, discarded: seq<Discard>,
                     delivered: set<BufRow>, confirmed: set<BufRow>)

  /** `inFlight` is how many slots of the semaphore are taken, `token` whether the
      capacity-one flush channel holds its signal. */
  datatype Agent = Agent(db: DB, gate: GateState, execs: map<nat, Exec>, inFlight: nat, lastStatus: map<int, bool>,
                         token: bool, rep: Rep, clock: nat, log: Log)

  datatype Move =
    | AskGate
    | Acquire
    | GiveUp
    | Return(raw: Timely)
    | Judge
    | ProbeEnds(up: bool)
    | GateLock(now: int)
    | Resolve(ok: bool)
    | Insert(ok: bool)
    | Note
    | Trigger
    | Release

  datatype PostOutcome = Accepted | Refused | ReplyLost

  datatype Report =
    | WakeByToken
    | WakeByTimer
    | Stop
    | List(ok: bool)
    | Post(outcome: PostOutcome)
    | Mark(ok: bool)
    | Purge(cutoff: Option<Instant>)

  /** Start: a goroutine calls execute. Cancel: its context ends, at a reconcile or
      at shutdown. Recheck: the gate's own loop applies a verdict. Sync and
      ImportCheck: one committed transaction each. Crash: the process dies and a
      new one starts on the same database. */
  datatype Event =
    | Start(i: nat, check: Check)
    | Cancel(i: nat)
    | Go(i: nat, move: Move)
    | Forget(id: int)
    | Recheck(up: bool, now: int)
    | Reports(report: Report)
    | Sync(delta: seq<Check>, serverTime: Instant)
    | ImportCheck(check: Check)
    | Crash

  function Idle(): Rep {
    Rep(Waiting, false, 0, 0)
  }

  function Init(): Agent {
    Agent(DB(map[], [], 0, None), GateState(true, 0, None), map[], 0, map[], false, Idle(), 0,
          Log({}, {}, {}, [], map[], [], {}, {}))
  }

  // ----- One execution -----

  function At(a: Agent, i: nat, stage: Stage): Agent
    requires i in a.execs
  {
    a.(execs := a.execs[i := a.execs[i].(stage := stage)])
  }

  function Leave(a: Agent, i: nat): Agent {
    a.(execs := a.execs - {i})
  }

  function VerdictOf(f: Finding): Verdict {
    Verdict(f.up && !f.cancelled, f.now)
  }

  function Discarded(a: Agent, d: Discard): Agent {
    a.(log := a.log.(discarded := a.log.discarded + [d]))
  }

  /** The gate takes a verdict under its lock. */
  function Found(a: Agent, f: Finding): Agent {
    a.(gate := Observe(a.gate, VerdictOf(f)), log := a.log.(findings := a.log.findings + [f]))
  }

  /** BufferResult's second statement. */
  function InsertRow(a: Agent, i: nat): Agent
    requires i in a.execs && a.execs[i].stage.Inserting?
  {
    var e, s := a.execs[i], a.execs[i].stage;
    var row := NewBufRow(a.db.lastResultId + 1, s.checkId, Cooked(e.check, s.raw));
    At(a, i, Noting(row.id, row.success)).(
      db := Inserted(a.db, s.checkId, Cooked(e.check, s.raw)),
      log := a.log.(written := a.log.written[row.id := Written(row, e.check, s.raw, s.failedAt, s.found)]))
  }

  /** An execution's next step; a move it is not up to changes nothing. */
  function GoStep(c: Config, a: Agent, i: nat, m: Move): Agent
    requires i in a.execs
  {
    var e, s := a.execs[i], a.execs[i].stage;
    match m
    case AskGate =>
      if !s.Asking? then a else if c.gated && !a.gate.online then Leave(a, i) else At(a, i, Acquiring)
    case Acquire =>
      if s.Acquiring? && a.inFlight < Slots(c) then At(a, i, Checking).(inFlight := a.inFlight + 1) else a
    case GiveUp =>
      if s.Acquiring? && e.cancelled then Leave(a, i) else a
    case Return(raw) =>
      if s.Checking? then At(a, i, Judging(raw, a.clock)) else a
    case Judge =>
      if !s.Judging? then a
      else if c.gated && IsTransportFailure(s.raw) then At(a, i, Probing(s.raw, s.failedAt, a.clock))
      else At(a, i, Resolving(s.raw, s.failedAt, None))
    case ProbeEnds(up) =>
      if s.Probing? then At(a, i, Observing(s.raw, s.failedAt, Probe(s.began, up, e.cancelled))) else a
    case GateLock(now) =>
      if !s.Observing? then a
      else
        Found(if Reached(s.probe) then At(a, i, Resolving(s.raw, s.failedAt, Some(s.probe)))
              else Discarded(At(a, i, Releasing), Discard(s.raw, s.failedAt, s.probe)),
              Finding(s.probe.up, s.probe.cancelled, now))
    case Resolve(ok) =>
      if !s.Resolving? then a
      else if ok && s.raw.guid in a.db.checks then
        At(a, i, Inserting(s.raw, s.failedAt, s.found, a.db.checks[s.raw.guid].id))
      else At(a, i, Releasing)
    case Insert(ok) =>
      if !s.Inserting? then a else if ok then InsertRow(a, i) else At(a, i, Releasing)
    case Note =>
      if !s.Noting? then a
      else
        var changed := e.check.id !in a.lastStatus || a.lastStatus[e.check.id] != s.success;
        At(a, i, if changed then Flushing(s.row) else Releasing).(
          lastStatus := a.lastStatus[e.check.id := s.success],
          log := if changed then a.log.(changed := a.log.changed + {s.row}) else a.log)
    case Trigger =>
      if !s.Flushing? then a
      else At(a, i, Releasing).(token := true, log := a.log.(awake := a.log.awake + {s.row}))
    case Release =>
      if s.Releasing? && a.inFlight > 0 then Leave(a, i).(inFlight := a.inFlight - 1) else a
  }

  // ----- The reporter -----

  function Begin(a: Agent, final: bool): Agent {
    a.(rep := a.rep.(pc := Listing(true), final := final, began := a.db.lastResultId),
       log := a.log.(missed := {}))
  }

  function EndPass(a: Agent, failed: bool): Agent {
    a.(rep := a.rep.(pc := if a.rep.final then Exited else Purging,
                     failedUpTo := if failed && a.rep.began > a.rep.failedUpTo then a.rep.began else a.rep.failedUpTo))
  }

  /** Unsent rows a listing passes over: no check has their rowid. */
  function Unjoined(db: DB): set<int> {
    set row | row in db.buffer && !row.sent && !Joined(db.checks, row.checkId) :: row.id
  }

  function ListStep(a: Agent, ok: bool): Agent
    requires a.rep.pc.Listing?
  {
    var rows := Limit(Eligible(a.db.checks, a.db.buffer), REPORT_BATCH_SIZE);
    if !ok || !AllReadable(rows) then EndPass(a, true)
    else
      var passedOver := if |rows| < REPORT_BATCH_SIZE then Unjoined(a.db) * a.log.awake else {};
      var b := a.(log := a.log.(missed := a.log.missed + passedOver));
      if rows == [] && !a.rep.pc.first then EndPass(b, false) else b.(rep := b.rep.(pc := Posting(rows)))
  }

  function PostStep(a: Agent, outcome: PostOutcome): Agent
    requires a.rep.pc.Posting?
  {
    var batch := set row | row in a.rep.pc.batch;
    match outcome
    case Refused => EndPass(a, true)
    case ReplyLost => EndPass(a, true).(log := a.log.(delivered := a.log.delivered + batch))
    case Accepted =>
      a.(rep := a.rep.(pc := Marking(a.rep.pc.batch)),
         log := a.log.(delivered := a.log.delivered + batch, confirmed := a.log.confirmed + batch))
  }

  function MarkStep(a: Agent, ok: bool): Agent
    requires a.rep.pc.Marking?
  {
    if !ok then EndPass(a, true)
    else
      var b := a.(db := a.db.(buffer := MarkSent(a.db.buffer, Ids(a.rep.pc.batch))));
      if |a.rep.pc.batch| < REPORT_BATCH_SIZE then EndPass(b, false) else b.(rep := b.rep.(pc := Listing(false)))
  }

  function PurgeStep(a: Agent, cutoff: Option<Instant>): Agent {
    var b := a.(rep := a.rep.(pc := Waiting));
    if cutoff.None? then b else b.(db := a.db.(buffer := Purged(a.db.buffer, FormatSecond(cutoff.value))))
  }

  function ReportStep(a: Agent, r: Report): Agent {
    match r
    case WakeByToken => if a.rep.pc.Waiting? && a.token then Begin(a, false).(token := false) else a
    case WakeByTimer => if a.rep.pc.Waiting? then Begin(a, false) else a
    case Stop => if a.rep.pc.Waiting? then Begin(a, true) else a
    case List(ok) => if a.rep.pc.Listing? then ListStep(a, ok) else a
    case Post(outcome) => if a.rep.pc.Posting? then PostStep(a, outcome) else a
    case Mark(ok) => if a.rep.pc.Marking? then MarkStep(a, ok) else a
    case Purge(cutoff) => if a.rep.pc.Purging? then PurgeStep(a, cutoff) else a
  }

  // ----- The agent -----

  function Restart(a: Agent): Agent {
    a.(gate := GateState(true, 0, None), execs := map[], inFlight := 0, lastStatus := map[], token := false,
       rep := Idle(), log := a.log.(changed := {}, awake := {}, missed := {}, findings := []))
  }

  ghost function Act(c: Config, a: Agent, e: Event): Agent {
    match e
    case Start(i, check) => if i in a.execs then a else a.(execs := a.execs[i := Exec(check, Asking, false)])
    case Cancel(i) => if i in a.execs then a.(execs := a.execs[i := a.execs[i].(cancelled := true)]) else a
    case Go(i, m) => if i in a.execs then GoStep(c, a, i, m) else a
    case Forget(id) => a.(lastStatus := a.lastStatus - {id})
    case Recheck(up, now) => Found(a, Finding(up, false, now))
    case Reports(r) => ReportStep(a, r)
    case Sync(delta, serverTime) => a.(db := ApplyDelta(a.db, delta, serverTime))
    case ImportCheck(check) => a.(db := a.db.(checks := ApplyWrite(a.db.checks, Import(check))))
    case Crash => Restart(a)
  }

  ghost function Next(c: Config, a: Agent, e: Event): Agent {
    Act(c, a, e).(clock := a.clock + 1)
  }

  /** The agent after any interleaving, from an empty database on. */
  ghost function After(c: Config, events: seq<Event>): Agent {
    if events == [] then Init() else Next(c, After(c, events[..|events| - 1]), events[|events| - 1])
  }

  // ----- What each kind of step leaves alone -----

  /** A move changes one execution, or ends it. */
  lemma GoTouchesOne(c: Config, a: Agent, i: nat, m: Move)
    requires i in a.execs
    ensures
      var b := GoStep(c, a, i, m);
      b.execs == if i in b.execs then a.execs[i := a.execs[i].(stage := b.execs[i].stage)] else a.execs - {i}
  {
  }

  lemma GoLeaves(c: Config, a: Agent, i: nat, m: Move)
    requires i in a.execs
    ensures
      var b := GoStep(c, a, i, m);
      && b.rep == a.rep && b.db.checks == a.db.checks && b.clock == a.clock
      && b.log.missed == a.log.missed && b.log.delivered == a.log.delivered && b.log.confirmed == a.log.confirmed
  {
  }

  /** Only an insert writes a row. */
  lemma OnlyInsertWrites(c: Config, a: Agent, i: nat, m: Move)
    requires i in a.execs && !(a.execs[i].stage.Inserting? && m == Insert(true))
    ensures GoStep(c, a, i, m).log.written == a.log.written
    ensures GoStep(c, a, i, m).db == a.db
  {
  }

  /** What no step of the reporter changes. */
  predicate OthersKept(a: Agent, b: Agent) {
    && b.execs == a.execs && b.inFlight == a.inFlight && b.clock == a.clock
    && b.gate == a.gate && b.log.findings == a.log.findings
    && b.log.written == a.log.written && b.log.discarded == a.log.discarded
    && b.log.changed == a.log.changed && b.log.awake == a.log.awake
    && b.db.checks == a.db.checks && b.db.lastResultId == a.db.lastResultId
  }

  lemma ListLeaves(a: Agent, ok: bool)
    requires a.rep.pc.Listing?
    ensures OthersKept(a, ListStep(a, ok))
  {
  }

  lemma PostLeaves(a: Agent, outcome: PostOutcome)
    requires a.rep.pc.Posting?
    ensures OthersKept(a, PostStep(a, outcome))
  {
  }

  lemma MarkLeaves(a: Agent, ok: bool)
    requires a.rep.pc.Marking?
    ensures OthersKept(a, MarkStep(a, ok))
  {
  }

  lemma ReportLeaves(a: Agent, r: Report)
    ensures OthersKept(a, ReportStep(a, r))
  {
    match r
    case List(ok) => if a.rep.pc.Listing? { ListLeaves(a, ok); }
    case Post(outcome) => if a.rep.pc.Posting? { PostLeaves(a, outcome); }
    case Mark(ok) => if a.rep.pc.Marking? { MarkLeaves(a, ok); }
    case _ =>
  }
}
