/** monitor/sync.go against a server that keeps its word about `since`: delta sync
    never opens a gap between the mirror and the server. */
module DeltaSync {
  import opened Base
  import opened Checks
  import opened Text
  import opened Timestamp
  import opened Tables
  import opened Mirror

  /** One change on the server; a deletion is a tombstone, `check.deleted`. */
  datatype Edit = Edit(stamp: int, check: Check)

  /** The server's version of a guid as of time `at`. */
  function Latest(log: seq<Edit>, g: Bytes, at: int): (e: Option<Edit>)
    ensures e.Some? ==> e.value.check.guid == g && e.value.stamp <= at
  {
    if log == [] then None
    else
      var last := log[|log| - 1];
      if last.check.guid == g && last.stamp <= at then Some(last) else Latest(log[..|log| - 1], g, at)
  }

  /** What a private-definition check carries on the wire: nothing. */
  const WIPED := Content([], [], [], [], map[], false, [], 0, false, 0, 0, 0, false)

  /** Every column of it is at its zero value. */
  lemma WipedIsEmpty()
    ensures WIPED.url == [] && WIPED.matchString == [] && WIPED.matchMode == [] && WIPED.postData == []
    ensures WIPED.headers == map[] && WIPED.statusCodeOp == [] && WIPED.statusCodeValue == 0
    ensures !WIPED.disableRedirects && !WIPED.insecureSkipVerify && !WIPED.invertResult
    ensures WIPED.timeoutSec == WIPED.maxResponseTimeMs == WIPED.certExpiryWarnDays == 0
  {
  }

  /** The reply the server promises: the current version of every guid changed
      after `since`, each once. Unchanged checks may come along. */
  ghost predicate Reply(log: seq<Edit>, since: int, serverTime: int, delta: seq<Check>) {
    && (forall i :: 0 <= i < |delta| ==>
          && Latest(log, delta[i].guid, serverTime).Some?
          && Latest(log, delta[i].guid, serverTime).value.check == delta[i])
    && (forall i, j :: 0 <= i < j < |delta| ==> delta[i].guid != delta[j].guid)
    && (forall g :: Latest(log, g, serverTime).Some? && Latest(log, g, serverTime).value.stamp > since ==>
          exists i :: 0 <= i < |delta| && delta[i].guid == g)
  }

  datatype Pending = Pending(serverTime: Instant, delta: seq<Check>)

  /** The server's history and clock, this agent's database, a reply in flight, the
      guids ever imported here, and every write its mirror took. */
  datatype Sys = Sys(log: seq<Edit>, reported: int, db: DB, pending: Option<Pending>, imported: set<Bytes>,
                     writes: seq<Write>)

  /** GetLastSyncedAt, the epoch before the first sync. */
  function Watermark(db: DB): int {
    match SyncedUpTo(db) case Some(t) => t case None => 0
  }

  ghost predicate Init(s: Sys) {
    s == Sys([], 0, DB(map[], [], 0, None), None, {}, [])
  }

  /** The server accepts a change and stamps it later than any time it reported. */
  ghost predicate ServerEdits(s: Sys, t: Sys) {
    exists e: Edit :: e.stamp > s.reported && (BearsContent(e.check) || e.check.content == WIPED)
                      && t == s.(log := s.log + [e])
  }

  /** The agent fetches the changes since its watermark. */
  ghost predicate Fetches(s: Sys, t: Sys) {
    exists p: Pending :: p.serverTime >= s.reported && (forall e :: e in s.log ==> e.stamp <= p.serverTime)
                         && Reply(s.log, Watermark(s.db), p.serverTime, p.delta)
                         && t == s.(pending := Some(p), reported := p.serverTime)
  }

  ghost predicate Applies(s: Sys, t: Sys) {
    s.pending.Some?
    && t == s.(db := ApplyDelta(s.db, s.pending.value.delta, s.pending.value.serverTime), pending := None,
               writes := s.writes + DeltaWrites(s.pending.value.delta))
  }

  /** A failed fetch, a rolled-back transaction or a crash: the reply is gone. */
  ghost predicate Drops(s: Sys, t: Sys) {
    t == s.(pending := None)
  }

  ghost function AfterImport(s: Sys, c: Check): Sys {
    s.(db := s.db.(checks := ApplyWrite(s.db.checks, Import(c))), imported := s.imported + {c.guid},
       writes := s.writes + [Import(c)])
  }

  ghost predicate Imports(s: Sys, t: Sys) {
    exists c: Check :: t == AfterImport(s, c)
  }

  ghost predicate Next(s: Sys, t: Sys) {
    ServerEdits(s, t) || Fetches(s, t) || Applies(s, t) || Drops(s, t) || Imports(s, t)
  }

  ghost predicate Run(trace: seq<Sys>) {
    trace != [] && Init(trace[0]) && forall i {:trigger trace[i]} :: 0 < i < |trace| ==> Next(trace[i - 1], trace[i])
  }

  // ----- The invariant -----

  /** A live check on the server has its row here, with the server's metadata. */
  predicate MetaInSync(e: Option<Edit>, row: Option<CheckRow>) {
    e.Some? && !e.value.check.deleted ==> row.Some? && row.value.meta == e.value.check.meta
  }

  /** For a guid never imported: a row exactly when the server has a live check;
      never locally defined; the server's content whenever it carries any, and
      otherwise either wiped or left from a version that did. */
  predicate ContentInSync(e: Option<Edit>, row: Option<CheckRow>) {
    && (row.Some? <==> e.Some? && !e.value.check.deleted)
    && (row.Some? ==>
          && !row.value.locallyDefined
          && (BearsContent(e.value.check) ==> row.value.content == e.value.check.content)
          && (row.value.content.url == [] ==> row.value.content == WIPED))
  }

  ghost predicate InSync(s: Sys, g: Bytes) {
    var e, row := Latest(s.log, g, Watermark(s.db)), RowOf(s.db.checks, g);
    MetaInSync(e, row) && (g !in s.imported ==> ContentInSync(e, row))
  }

  ghost predicate Inv(s: Sys) {
    && (forall e :: e in s.log ==> e.stamp > 0 && (BearsContent(e.check) || e.check.content == WIPED))
    && 0 <= Watermark(s.db) <= s.reported
    && (s.pending.Some? ==>
          && Watermark(s.db) <= s.pending.value.serverTime <= s.reported
          && Reply(s.log, Watermark(s.db), s.pending.value.serverTime, s.pending.value.delta))
    && forall g :: InSync(s, g)
  }

  lemma LaterEditInvisible(log: seq<Edit>, e: Edit, g: Bytes, at: int)
    requires e.stamp > at
    ensures Latest(log + [e], g, at) == Latest(log, g, at)
  {
    assert (log + [e])[..|log|] == log;
  }

  /** A version current at `until` and stamped by `since` was already current then. */
  lemma {:induction false} CurrentBefore(log: seq<Edit>, g: Bytes, since: int, until: int)
    requires since <= until
    requires Latest(log, g, until).Some? ==> Latest(log, g, until).value.stamp <= since
    ensures Latest(log, g, since) == Latest(log, g, until)
  {
    if log != [] {
      var last := log[|log| - 1];
      if !(last.check.guid == g && last.stamp <= until) {
        CurrentBefore(log[..|log| - 1], g, since, until);
      }
    }
  }

  lemma {:induction false} LatestInLog(log: seq<Edit>, g: Bytes, at: int)
    ensures Latest(log, g, at).Some? ==> Latest(log, g, at).value in log
  {
    if log != [] {
      LatestInLog(log[..|log| - 1], g, at);
    }
  }

  /** A delta touches a row once, through its guid's own entry. */
  lemma {:induction false} DeltaRow(checks: CheckTable, delta: seq<Check>, i: nat)
    requires i < |delta| && forall j, k :: 0 <= j < k < |delta| ==> delta[j].guid != delta[k].guid
    ensures exists id :: RowOf(ApplyWrites(checks, DeltaWrites(delta)), delta[i].guid)
                         == StepRow(RowOf(checks, delta[i].guid), DeltaWrite(delta[i]), id)
    decreases |delta|
  {
    var n := |delta| - 1;
    var ws, g := DeltaWrites(delta), delta[i].guid;
    assert ws[..n] == DeltaWrites(delta[..n]);
    var before := ApplyWrites(checks, ws[..n]);
    RowStep(before, ws[n], g);
    if i == n {
      NotInDelta(checks, delta[..n], g);
      assert RowOf(ApplyWrites(checks, ws), g) == StepRow(RowOf(checks, g), DeltaWrite(delta[i]), NewId(before));
    } else {
      DeltaRow(checks, delta[..n], i);
      assert delta[..n][i] == delta[i];
    }
  }

  lemma NotInDelta(checks: CheckTable, delta: seq<Check>, g: Bytes)
    requires forall i :: 0 <= i < |delta| ==> delta[i].guid != g
    ensures RowOf(ApplyWrites(checks, DeltaWrites(delta)), g) == RowOf(checks, g)
  {
    var ws := DeltaWrites(delta);
    forall w | w in ws ensures Target(w) != g {
      var k :| 0 <= k < |ws| && ws[k] == w;
    }
    OthersUntouched(checks, ws, g);
  }

  /** Applying the server's current version of a guid brings its row in sync. */
  lemma AppliedVersion(e: Edit, row: Option<CheckRow>, id: int, imported: bool)
    requires BearsContent(e.check) || e.check.content == WIPED
    requires !imported && row.Some? ==>
      !row.value.locallyDefined && (row.value.content.url == [] ==> row.value.content == WIPED)
    ensures MetaInSync(Some(e), StepRow(row, DeltaWrite(e.check), id))
    ensures !imported ==> ContentInSync(Some(e), StepRow(row, DeltaWrite(e.check), id))
  {
  }

  lemma AppliesKeeps(s: Sys, t: Sys, g: Bytes)
    requires Inv(s) && Applies(s, t)
    ensures Watermark(t.db) == s.pending.value.serverTime
    ensures InSync(t, g)
  {
    var p := s.pending.value;
    TimestampRoundTrip(p.serverTime);
    assert InSync(s, g);
    var e := Latest(s.log, g, p.serverTime);
    LatestInLog(s.log, g, p.serverTime);
    if i :| 0 <= i < |p.delta| && p.delta[i].guid == g {
      DeltaRow(s.db.checks, p.delta, i);
      var id :| RowOf(t.db.checks, g) == StepRow(RowOf(s.db.checks, g), DeltaWrite(p.delta[i]), id);
      AppliedVersion(e.value, RowOf(s.db.checks, g), id, g in s.imported);
    } else {
      NotInDelta(s.db.checks, p.delta, g);
      CurrentBefore(s.log, g, Watermark(s.db), p.serverTime);
    }
  }

  lemma EditsKeep(s: Sys, t: Sys)
    requires Inv(s) && ServerEdits(s, t)
    ensures Inv(t)
  {
    var e: Edit :| e.stamp > s.reported && (BearsContent(e.check) || e.check.content == WIPED)
                   && t == s.(log := s.log + [e]);
    forall g, at | at <= s.reported ensures Latest(t.log, g, at) == Latest(s.log, g, at) {
      LaterEditInvisible(s.log, e, g, at);
    }
    forall g ensures InSync(t, g) {
      assert InSync(s, g);
    }
  }

  lemma ImportsKeep(s: Sys, t: Sys)
    requires Inv(s) && Imports(s, t)
    ensures Inv(t)
  {
    var c: Check :| t == AfterImport(s, c);
    forall g ensures InSync(t, g) {
      assert InSync(s, g);
      RowStep(s.db.checks, Import(c), g);
    }
  }

  lemma NextKeeps(s: Sys, t: Sys)
    requires Inv(s) && Next(s, t)
    ensures Inv(t)
  {
    if ServerEdits(s, t) {
      EditsKeep(s, t);
    } else if Imports(s, t) {
      ImportsKeep(s, t);
    } else if Applies(s, t) {
      TimestampRoundTrip(s.pending.value.serverTime);
      forall g ensures InSync(t, g) {
        AppliesKeeps(s, t, g);
      }
    } else {
      assert t.db == s.db && t.log == s.log && t.imported == s.imported;
      forall g ensures InSync(t, g) {
        assert InSync(s, g);
      }
    }
  }

  lemma {:induction false} RunKeeps(trace: seq<Sys>, i: nat)
    requires Run(trace) && i < |trace|
    ensures Inv(trace[i])
  {
    if i > 0 {
      RunKeeps(trace, i - 1);
      assert Next(trace[i - 1], trace[i]);
      NextKeeps(trace[i - 1], trace[i]);
    }
  }

  // ----- What the mirror was made of -----

  predicate FromServer(w: Write) {
    w.Upsert? ==> BearsContent(w.check) || w.check.content == WIPED
  }

  /** The mirror is its writes, applied in order; an import is of a guid imported,
      and a sync carries content or none at all. */
  ghost predicate Recorded(s: Sys) {
    && s.db.checks == ApplyWrites(map[], s.writes)
    && forall w :: w in s.writes ==> FromServer(w) && (w.Import? ==> w.check.guid in s.imported)
  }

  lemma DeltaFromServer(s: Sys)
    requires Inv(s) && s.pending.Some?
    ensures forall w :: w in DeltaWrites(s.pending.value.delta) ==> FromServer(w) && !w.Import?
  {
    var p := s.pending.value;
    forall i | 0 <= i < |p.delta| ensures FromServer(DeltaWrite(p.delta[i])) {
      LatestInLog(s.log, p.delta[i].guid, p.serverTime);
    }
  }

  lemma RecordedKept(s: Sys, t: Sys)
    requires Inv(s) && Recorded(s) && Next(s, t)
    ensures Recorded(t)
  {
    if Applies(s, t) {
      ApplyInTwo(map[], s.writes, DeltaWrites(s.pending.value.delta));
      DeltaFromServer(s);
    } else if Imports(s, t) {
      var c: Check :| t == AfterImport(s, c);
      ApplyOneMore(map[], t.writes, |s.writes|);
      assert t.writes[..|s.writes|] == s.writes && t.writes[..|s.writes| + 1] == t.writes;
    }
  }

  lemma {:induction false} RunRecorded(trace: seq<Sys>, i: nat)
    requires Run(trace) && i < |trace|
    ensures Recorded(trace[i])
  {
    if i > 0 {
      RunRecorded(trace, i - 1);
      RunKeeps(trace, i - 1);
      assert Next(trace[i - 1], trace[i]);
      RecordedKept(trace[i - 1], trace[i]);
    }
  }

  /** A version of the guid that carried content was applied since the guid was last
      removed. */
  predicate SawContent(writes: seq<Write>, g: Bytes) {
    exists i :: 0 <= i < |Since(writes, g)| && WritesContent(Since(writes, g)[i])
  }

  /** A row never imported has a URL exactly when such a version was applied, and is
      wiped otherwise. */
  lemma ContentByHistory(s: Sys, g: Bytes)
    requires Recorded(s) && g !in s.imported && g in s.db.checks
    ensures SawContent(s.writes, g) <==> s.db.checks[g].content.url != []
    ensures !SawContent(s.writes, g) ==> s.db.checks[g].content == WIPED
  {
    Provenance(map[], s.writes, g);
    var since, row := Since(s.writes, g), s.db.checks[g];
    assert Basis(map[], s.writes, g) == None;
    var i :| ContentFrom(since, None, row, i);
    assert since[i] in since && since[i].Upsert?;
  }

  /** Over any run of edits, syncs that succeed, fail or roll back, and imports:
      the mirror shows the server as of the stored watermark. Every live check
      has its row with the server's metadata; and for a guid never imported here
      there is no other row, and its content is the server's exactly when the
      server's version carries content, or no version that did was applied here
      since the guid was last removed. */
  lemma NoGap(trace: seq<Sys>, i: nat, g: Bytes)
    requires Run(trace) && i < |trace|
    ensures
      var s := trace[i];
      var e, row := Latest(s.log, g, Watermark(s.db)), RowOf(s.db.checks, g);
      && (e.Some? && !e.value.check.deleted ==> row.Some? && row.value.meta == e.value.check.meta)
      && (g !in s.imported ==>
            && (row.Some? <==> e.Some? && !e.value.check.deleted)
            && (row.Some? ==>
                  (row.value.content == e.value.check.content
                   <==> BearsContent(e.value.check) || !SawContent(s.writes, g))))
  {
    RunKeeps(trace, i);
    RunRecorded(trace, i);
    var s := trace[i];
    assert InSync(s, g);
    LatestInLog(s.log, g, Watermark(s.db));
    if g !in s.imported && g in s.db.checks {
      ContentByHistory(s, g);
    }
  }

  /** One application, judged by what was there before: the row of a check just
      applied gets the server's content exactly when the new version carries
      content, there was no row, or the row there had no URL. */
  lemma AppliedContentIff(s: Sys, t: Sys, g: Bytes, c: Check)
    requires Inv(s) && Applies(s, t) && g !in s.imported && c in s.pending.value.delta && c.guid == g && !c.deleted
    ensures g in t.db.checks
    ensures t.db.checks[g].content == c.content <==>
      BearsContent(c) || g !in s.db.checks || s.db.checks[g].content.url == []
  {
    var delta := s.pending.value.delta;
    var i :| 0 <= i < |delta| && delta[i] == c;
    DeltaRow(s.db.checks, delta, i);
    assert InSync(s, g);
    LatestInLog(s.log, g, s.pending.value.serverTime);
  }

  lemma ApplyDeltaOne(db: DB, c: Check, t: Instant)
    requires !c.deleted
    ensures ApplyDelta(db, [c], t).checks == ApplyWrite(db.checks, Upsert(c))
  {
    assert DeltaWrites([c]) == [Upsert(c)];
    ApplyOneMore(db.checks, [Upsert(c)], 0);
    assert [Upsert(c)][..1] == [Upsert(c)];
  }

  /** The content of a check gone private is not a function of the server's state:
      it depends on whether the mirror saw an earlier version. */
  lemma ContentDependsOnHistory(c: Check, bare: Check, serverTime: Instant, later: Instant, db: DB)
    requires c.guid == bare.guid && !c.deleted && !bare.deleted
    requires BearsContent(c) && bare.content == WIPED && c.guid !in db.checks
    ensures
      var seen := ApplyDelta(ApplyDelta(db, [c], serverTime), [bare], later);
      var missed := ApplyDelta(db, [bare], later);
      && seen.lastSyncedAt == missed.lastSyncedAt
      && c.guid in seen.checks && c.guid in missed.checks
      && seen.checks[c.guid].meta == missed.checks[c.guid].meta
      && seen.checks[c.guid].content != missed.checks[c.guid].content
  {
    ApplyDeltaOne(db, c, serverTime);
    ApplyDeltaOne(ApplyDelta(db, [c], serverTime), bare, later);
    ApplyDeltaOne(db, bare, later);
  }
}
