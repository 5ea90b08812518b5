/** Under which guid a buffered result is uploaded. The buffer stores a check's
    local rowid and ListUnsent joins it back; rowids come from a table without
    AUTOINCREMENT, and deleting a check leaves the buffer alone. */
module Attribution {
  import opened Base
  import opened Checks
  import opened Timestamp
  import opened Tables

  /** A result whose lookup has found its check's rowid and whose INSERT is still to
      come. */
  datatype Resolved = Resolved(result: Result, checkId: int)

  /** The database with its history: the guid each result was buffered with, the
      results on their way in, the highest rowid ever given to a check, and the
      rowids of removed checks. */
  datatype Tracked = Tracked(db: DB, origin: map<int, Bytes>, pending: map<nat, Resolved>, highest: nat, gone: set<int>)

  /** One statement each. `i` names the execution a result comes from. Restarts: the
      process dies with the results on their way in. */
  datatype Event =
    | Changes(write: Write)
    | Looks(i: nat, result: Result)
    | Stores(i: nat, ok: bool)
    | Marks(ids: set<int>)
    | Purges(cutoff: string)
    | Restarts

  ghost predicate Inserts(checks: CheckTable, w: Write) {
    !w.Remove? && Target(w) !in checks
  }

  ghost function Change(s: Tracked, w: Write): Tracked {
    s.(db := s.db.(checks := ApplyWrite(s.db.checks, w)),
       highest := if Inserts(s.db.checks, w) && NewId(s.db.checks) > s.highest then NewId(s.db.checks) else s.highest,
       gone := if w.Remove? && w.guid in s.db.checks then s.gone + {s.db.checks[w.guid].id} else s.gone)
  }

  /** BufferResult's lookup: fails for an unknown guid. */
  function Look(s: Tracked, i: nat, r: Result): Tracked {
    if i in s.pending || r.guid !in s.db.checks || !(MIN_INSTANT <= r.ranAt < MAX_INSTANT) then s
    else s.(pending := s.pending[i := Resolved(r, s.db.checks[r.guid].id)])
  }

  /** ... and its INSERT, under the rowid found then. */
  function Store(s: Tracked, i: nat, ok: bool): Tracked {
    if i !in s.pending then s
    else
      var p := s.pending[i];
      var t := s.(pending := s.pending - {i});
      if !ok || !(MIN_INSTANT <= p.result.ranAt < MAX_INSTANT) then t
      else t.(db := Inserted(s.db, p.checkId, p.result), origin := s.origin[s.db.lastResultId + 1 := p.result.guid])
  }

  ghost function Step(s: Tracked, e: Event): Tracked {
    match e
    case Changes(w) => Change(s, w)
    case Looks(i, r) => Look(s, i, r)
    case Stores(i, ok) => Store(s, i, ok)
    case Marks(ids) => s.(db := s.db.(buffer := MarkSent(s.db.buffer, ids)))
    case Purges(cutoff) => s.(db := s.db.(buffer := Purged(s.db.buffer, cutoff)))
    case Restarts => s.(pending := map[])
  }

  ghost function After(events: seq<Event>): Tracked {
    if events == [] then Tracked(DB(map[], [], 0, None), map[], map[], 0, {})
    else Step(After(events[..|events| - 1]), events[|events| - 1])
  }

  // ----- True of every run -----

  ghost predicate HasId(checks: CheckTable, id: int) {
    exists g :: g in checks && checks[g].id == id
  }

  ghost predicate RowsKnown(s: Tracked) {
    && (forall row :: row in s.db.buffer ==> 1 <= row.checkId <= s.highest && row.id in s.origin)
    && (forall i :: i in s.pending ==> 1 <= s.pending[i].checkId <= s.highest)
  }

  /** Rowids 1..highest, and no others, have been used, and each belongs to a check
      there now or to one removed. */
  ghost predicate Bookkeeping(s: Tracked) {
    && Valid(s.db)
    && (forall g :: g in s.db.checks ==> s.db.checks[g].id <= s.highest)
    && (forall id :: 1 <= id <= s.highest ==> HasId(s.db.checks, id) || id in s.gone)
    && (forall id :: id in s.gone ==> 1 <= id <= s.highest)
    && RowsKnown(s)
  }

  lemma NewIdBound(s: Tracked)
    requires Bookkeeping(s)
    ensures 1 <= NewId(s.db.checks) <= s.highest + 1
  {
    if s.db.checks != map[] {
      var m :| m in s.db.checks && s.db.checks[m].id == MaxId(s.db.checks);
    }
  }

  lemma UsedIdsAccounted(s: Tracked, w: Write, id: int)
    requires Bookkeeping(s)
    requires 1 <= id <= Change(s, w).highest
    ensures HasId(Change(s, w).db.checks, id) || id in Change(s, w).gone
  {
    var t := Change(s, w);
    NewIdBound(s);
    if id > s.highest {
      assert t.db.checks[Target(w)].id == id;
    } else if id !in s.gone {
      assert HasId(s.db.checks, id);
      var g :| g in s.db.checks && s.db.checks[g].id == id;
      if g in t.db.checks {
        assert t.db.checks[g].id == id;
      }
    }
  }

  lemma BookkeepingChange(s: Tracked, w: Write)
    requires Bookkeeping(s)
    ensures Bookkeeping(Change(s, w))
  {
    var t := Change(s, w);
    ApplyWriteValid(s.db.checks, w);
    NewIdBound(s);
    forall id | 1 <= id <= t.highest ensures HasId(t.db.checks, id) || id in t.gone {
      UsedIdsAccounted(s, w, id);
    }
    assert forall g :: g in t.db.checks ==> t.db.checks[g].id <= t.highest;
  }

  lemma BookkeepingStore(s: Tracked, i: nat, ok: bool)
    requires Bookkeeping(s)
    ensures Bookkeeping(Store(s, i, ok))
  {
    if i in s.pending && MIN_INSTANT <= s.pending[i].result.ranAt < MAX_INSTANT {
      var p := s.pending[i];
      ValidAppend(s.db.buffer, s.db.lastResultId, NewBufRow(s.db.lastResultId + 1, p.checkId, p.result));
    }
  }

  lemma BookkeepingMark(s: Tracked, ids: set<int>)
    requires Bookkeeping(s)
    ensures Bookkeeping(Step(s, Marks(ids)))
  {
    var out := MarkSent(s.db.buffer, ids);
    ValidMark(s.db.buffer, s.db.lastResultId, ids);
    forall row | row in out ensures 1 <= row.checkId <= s.highest && row.id in s.origin {
      var i :| 0 <= i < |out| && out[i] == row;
      assert s.db.buffer[i] in s.db.buffer;
    }
  }

  lemma BookkeepingStep(s: Tracked, e: Event)
    requires Bookkeeping(s)
    ensures Bookkeeping(Step(s, e))
  {
    match e
    case Changes(w) => BookkeepingChange(s, w);
    case Looks(i, r) =>
    case Stores(i, ok) => BookkeepingStore(s, i, ok);
    case Marks(ids) => BookkeepingMark(s, ids);
    case Purges(cutoff) => ValidPurge(s.db.buffer, s.db.lastResultId, cutoff);
    case Restarts =>
  }

  lemma {:induction false} BookkeepingHolds(events: seq<Event>)
    ensures Bookkeeping(After(events))
  {
    if events != [] {
      BookkeepingHolds(events[..|events| - 1]);
      BookkeepingStep(After(events[..|events| - 1]), events[|events| - 1]);
    }
  }

  /** The next insert reuses a rowid exactly when the check with the highest one
      ever given is no longer there. */
  lemma ReuseIff(events: seq<Event>)
    ensures
      var s := After(events);
      NewId(s.db.checks) <= s.highest <==> s.highest > 0 && !HasId(s.db.checks, s.highest)
  {
    BookkeepingHolds(events);
    var s := After(events);
    if s.db.checks != map[] {
      var g :| g in s.db.checks && s.db.checks[g].id == MaxId(s.db.checks);
    }
  }

  // ----- Attribution, exactly -----

  /** Every unsent result joins, if anything, the check it was buffered for: what
      ListUnsent needs. */
  ghost predicate RowsRight(s: Tracked) {
    forall row, g :: row in s.db.buffer && !row.sent && g in s.db.checks && s.db.checks[g].id == row.checkId ==>
                       row.id in s.origin && s.origin[row.id] == g
  }

  /** ... and so would every result on its way in. */
  ghost predicate PendingRight(s: Tracked) {
    forall i, g :: i in s.pending && g in s.db.checks && s.db.checks[g].id == s.pending[i].checkId ==>
                     s.pending[i].result.guid == g
  }

  ghost predicate Attributed(s: Tracked) {
    RowsRight(s) && PendingRight(s)
  }

  /** No unsent result of another guid waits under the rowid an insert would give. */
  ghost predicate NoneWaits(s: Tracked, w: Write) {
    forall row :: row in s.db.buffer && !row.sent && row.checkId == NewId(s.db.checks) ==>
                    row.id in s.origin && s.origin[row.id] == Target(w)
  }

  /** ... nor has one been resolved to it. */
  ghost predicate NoneOnItsWay(s: Tracked, w: Write) {
    forall i :: i in s.pending && s.pending[i].checkId == NewId(s.db.checks) ==> s.pending[i].result.guid == Target(w)
  }

  lemma ChangeRows(s: Tracked, w: Write)
    requires Bookkeeping(s) && RowsRight(s)
    ensures RowsRight(Change(s, w)) <==> (Inserts(s.db.checks, w) ==> NoneWaits(s, w))
  {
    var t, g := Change(s, w), Target(w);
    if Inserts(s.db.checks, w) {
      assert t.db.checks[g].id == NewId(s.db.checks);
      if RowsRight(t) {
        forall row | row in s.db.buffer && !row.sent && row.checkId == NewId(s.db.checks)
          ensures row.id in s.origin && s.origin[row.id] == g
        {
          assert t.db.checks[g].id == row.checkId;
        }
      }
    }
  }

  lemma ChangePending(s: Tracked, w: Write)
    requires Bookkeeping(s) && PendingRight(s)
    ensures PendingRight(Change(s, w)) <==> (Inserts(s.db.checks, w) ==> NoneOnItsWay(s, w))
  {
    var t, g := Change(s, w), Target(w);
    if Inserts(s.db.checks, w) {
      assert t.db.checks[g].id == NewId(s.db.checks);
      if PendingRight(t) {
        forall i | i in s.pending && s.pending[i].checkId == NewId(s.db.checks) ensures s.pending[i].result.guid == g {
          assert t.db.checks[g].id == s.pending[i].checkId;
        }
      }
    }
  }

  /** One insert keeps attribution right exactly when no other guid's unsent result,
      nor one already resolved to that rowid, is waiting for the rowid it is given. */
  lemma InsertKeepsAttributionIff(s: Tracked, w: Write)
    requires Bookkeeping(s) && Attributed(s) && Inserts(s.db.checks, w)
    ensures Attributed(Step(s, Changes(w))) <==> NoneWaits(s, w) && NoneOnItsWay(s, w)
  {
    ChangeRows(s, w);
    ChangePending(s, w);
  }

  /** The row a pending result becomes is right exactly when no check of another guid
      has the rowid it was resolved to. */
  ghost predicate StillIts(s: Tracked, p: Resolved) {
    forall g :: g in s.db.checks && s.db.checks[g].id == p.checkId ==> p.result.guid == g
  }

  lemma OldRowIds(s: Tracked, row: BufRow)
    requires Valid(s.db) && row in s.db.buffer
    ensures row.id <= s.db.lastResultId
  {
    var i :| 0 <= i < |s.db.buffer| && s.db.buffer[i] == row;
  }

  ghost predicate Lands(s: Tracked, e: Event) {
    e.Stores? && e.ok && e.i in s.pending && MIN_INSTANT <= s.pending[e.i].result.ranAt < MAX_INSTANT
  }

  lemma StoreRows(s: Tracked, e: Event)
    requires Bookkeeping(s) && RowsRight(s) && Lands(s, e)
    ensures RowsRight(Step(s, e)) <==> StillIts(s, s.pending[e.i])
  {
    var p, t := s.pending[e.i], Step(s, e);
    var last := t.db.buffer[|s.db.buffer|];
    assert last in t.db.buffer;
    forall row | row in s.db.buffer ensures row.id <= s.db.lastResultId {
      OldRowIds(s, row);
    }
    forall row | row in t.db.buffer && row != last ensures row in s.db.buffer {
    }
    if RowsRight(t) {
      forall g | g in s.db.checks && s.db.checks[g].id == p.checkId ensures p.result.guid == g {
        assert t.db.checks[g].id == last.checkId;
      }
    }
  }

  lemma MarkRows(s: Tracked, ids: set<int>)
    requires RowsRight(s)
    ensures RowsRight(Step(s, Marks(ids)))
  {
    var t := Step(s, Marks(ids));
    forall row, g | row in t.db.buffer && !row.sent && g in t.db.checks && t.db.checks[g].id == row.checkId
      ensures row.id in t.origin && t.origin[row.id] == g
    {
      var i :| 0 <= i < |s.db.buffer| && t.db.buffer[i] == row;
      assert s.db.buffer[i] == row;
    }
  }

  /** No other step, however it falls, misattributes a result, landing or not. */
  lemma OthersKeepAttribution(s: Tracked, e: Event)
    requires Bookkeeping(s) && Attributed(s) && !(e.Changes? && Inserts(s.db.checks, e.write))
    ensures Attributed(Step(s, e))
  {
    match e
    case Changes(w) => ChangeRows(s, w); ChangePending(s, w);
    case Stores(i, ok) =>
      if Lands(s, e) {
        assert StillIts(s, s.pending[i]);
        StoreRows(s, e);
      }
    case Marks(ids) => MarkRows(s, ids);
    case _ =>
  }

  ghost predicate SafeInsert(s: Tracked, e: Event) {
    e.Changes? && Inserts(s.db.checks, e.write) ==> NoneWaits(s, e.write) && NoneOnItsWay(s, e.write)
  }

  lemma AttributionStep(s: Tracked, e: Event)
    requires Bookkeeping(s) && Attributed(s)
    ensures Attributed(Step(s, e)) <==> SafeInsert(s, e)
  {
    if e.Changes? && Inserts(s.db.checks, e.write) {
      InsertKeepsAttributionIff(s, e.write);
    } else {
      OthersKeepAttribution(s, e);
    }
  }

  /** At every moment of a run. */
  ghost predicate AlwaysAttributed(events: seq<Event>) {
    forall n :: 0 <= n <= |events| ==> Attributed(After(events[..n]))
  }

  ghost predicate EveryInsertSafe(events: seq<Event>) {
    forall n :: 0 <= n < |events| ==> SafeInsert(After(events[..n]), events[n])
  }

  lemma AfterOneMore(events: seq<Event>, n: nat)
    requires n < |events|
    ensures After(events[..n + 1]) == Step(After(events[..n]), events[n])
  {
    assert events[..n + 1][..n] == events[..n];
  }

  lemma {:induction false} SafeSoFar(events: seq<Event>, n: nat)
    requires EveryInsertSafe(events) && n <= |events|
    ensures Attributed(After(events[..n]))
  {
    if n > 0 {
      SafeSoFar(events, n - 1);
      AfterOneMore(events, n - 1);
      BookkeepingHolds(events[..n - 1]);
      assert SafeInsert(After(events[..n - 1]), events[n - 1]);
      AttributionStep(After(events[..n - 1]), events[n - 1]);
    }
  }

  /** Over any run: results are attributed right at every moment, those on their way
      in included, exactly when no insert is ever given a rowid for which another
      guid's unsent or resolved result is waiting. */
  lemma AlwaysAttributedIff(events: seq<Event>)
    ensures AlwaysAttributed(events) <==> EveryInsertSafe(events)
  {
    if EveryInsertSafe(events) {
      forall n | 0 <= n <= |events| ensures Attributed(After(events[..n])) {
        SafeSoFar(events, n);
      }
    }
    if AlwaysAttributed(events) {
      forall n | 0 <= n < |events| ensures SafeInsert(After(events[..n]), events[n]) {
        assert Attributed(After(events[..n]));
        assert Attributed(After(events[..n + 1]));
        AfterOneMore(events, n);
        BookkeepingHolds(events[..n]);
        AttributionStep(After(events[..n]), events[n]);
      }
    }
  }

  // ----- What is uploaded, exactly -----

  /** The condition on rows alone: of an insert of a check, and of a result's own. */
  ghost predicate SafeForRows(s: Tracked, e: Event) {
    && (e.Changes? && Inserts(s.db.checks, e.write) ==> NoneWaits(s, e.write))
    && (Lands(s, e) ==> StillIts(s, s.pending[e.i]))
  }

  lemma RowsStep(s: Tracked, e: Event)
    requires Bookkeeping(s) && RowsRight(s)
    ensures RowsRight(Step(s, e)) <==> SafeForRows(s, e)
  {
    match e
    case Changes(w) => ChangeRows(s, w);
    case Stores(i, ok) => if Lands(s, e) { StoreRows(s, e); }
    case Marks(ids) => MarkRows(s, ids);
    case _ =>
  }

  ghost predicate AlwaysRowsRight(events: seq<Event>) {
    forall n :: 0 <= n <= |events| ==> RowsRight(After(events[..n]))
  }

  ghost predicate EverySafeForRows(events: seq<Event>) {
    forall n :: 0 <= n < |events| ==> SafeForRows(After(events[..n]), events[n])
  }

  lemma {:induction false} RowsSoFar(events: seq<Event>, n: nat)
    requires EverySafeForRows(events) && n <= |events|
    ensures RowsRight(After(events[..n]))
  {
    if n > 0 {
      RowsSoFar(events, n - 1);
      AfterOneMore(events, n - 1);
      BookkeepingHolds(events[..n - 1]);
      assert SafeForRows(After(events[..n - 1]), events[n - 1]);
      RowsStep(After(events[..n - 1]), events[n - 1]);
    }
  }

  /** Over any run: no listing, whenever taken, shows a result under a wrong guid,
      exactly when no check is given a rowid another guid's unsent result waits
      under, and no result is inserted once another guid has the rowid it was
      resolved to. */
  lemma NeverMisuploadedIff(events: seq<Event>)
    ensures AlwaysRowsRight(events) <==> EverySafeForRows(events)
  {
    if EverySafeForRows(events) {
      forall n | 0 <= n <= |events| ensures RowsRight(After(events[..n])) {
        RowsSoFar(events, n);
      }
    }
    if AlwaysRowsRight(events) {
      forall n | 0 <= n < |events| ensures SafeForRows(After(events[..n]), events[n]) {
        assert RowsRight(After(events[..n]));
        assert RowsRight(After(events[..n + 1]));
        AfterOneMore(events, n);
        BookkeepingHolds(events[..n]);
        RowsStep(After(events[..n]), events[n]);
      }
    }
  }

  // ----- If rowids are never reused -----

  ghost predicate FreshStep(s: Tracked, e: Event) {
    e.Changes? && Inserts(s.db.checks, e.write) ==> NewId(s.db.checks) > s.highest
  }

  ghost predicate NeverReused(events: seq<Event>) {
    forall i :: 0 <= i < |events| ==> FreshStep(After(events[..i]), events[i])
  }

  /** A removed check's rowid stays out of the table. */
  ghost predicate GoneForGood(s: Tracked) {
    forall id :: id in s.gone ==> !HasId(s.db.checks, id)
  }

  lemma FreshChange(s: Tracked, w: Write)
    requires Bookkeeping(s) && GoneForGood(s) && FreshStep(s, Changes(w))
    ensures GoneForGood(Change(s, w))
  {
    var t := Change(s, w);
    forall g | g in t.db.checks && t.db.checks[g].id <= s.highest
      ensures g in s.db.checks && s.db.checks[g].id == t.db.checks[g].id
    {
    }
    forall id, g | id in t.gone && g in t.db.checks ensures t.db.checks[g].id != id {
      assert g in s.db.checks && s.db.checks[g].id == id ==> HasId(s.db.checks, id);
    }
  }

  /** A fresh rowid is one nothing waits for. */
  lemma FreshIsSafe(s: Tracked, e: Event)
    requires Bookkeeping(s) && FreshStep(s, e)
    ensures SafeInsert(s, e)
  {
  }

  lemma {:induction false} FreshRun(events: seq<Event>)
    requires NeverReused(events)
    ensures Attributed(After(events)) && GoneForGood(After(events))
  {
    if events != [] {
      var n := |events| - 1;
      var front, e := events[..n], events[n];
      forall i | 0 <= i < n ensures FreshStep(After(front[..i]), front[i]) {
        assert front[..i] == events[..i];
        assert FreshStep(After(events[..i]), events[i]);
      }
      FreshRun(front);
      BookkeepingHolds(front);
      assert FreshStep(After(events[..n]), events[n]);
      FreshIsSafe(After(front), e);
      AttributionStep(After(front), e);
      if e.Changes? {
        FreshChange(After(front), e.write);
      }
    }
  }

  /** With rowids never reused, every listed result goes out under the guid it was
      buffered with, a check's removal between lookup and insert included, and the
      unsent results left out are exactly those of removed checks. */
  lemma RightGuid(events: seq<Event>, row: BufRow)
    requires NeverReused(events)
    requires
      var s := After(events);
      row in s.db.buffer && !row.sent
    ensures
      var s := After(events);
      && row.id in s.origin
      && (row in Eligible(s.db.checks, s.db.buffer) <==> row.checkId !in s.gone)
      && forall r :: IsWire(s.db.checks, row, r) ==> r.guid == s.origin[row.id]
  {
    FreshRun(events);
    BookkeepingHolds(events);
    var s := After(events);
    EligibleIff(s.db.checks, s.db.buffer);
    assert HasId(s.db.checks, row.checkId) <==> Joined(s.db.checks, row.checkId);
  }

  // ----- And if they are -----

  lemma AfterSnoc(events: seq<Event>, e: Event)
    ensures After(events + [e]) == Step(After(events), e)
  {
    assert (events + [e])[..|events|] == events;
  }

  lemma OneBuffered(a: Check, r: Result)
    requires !a.deleted && r.guid == a.guid && MIN_INSTANT <= r.ranAt < MAX_INSTANT
    ensures
      var s := After([Changes(Upsert(a)), Looks(0, r), Stores(0, true)]);
      && s.db.checks.Keys == {a.guid} && s.origin == map[1 := a.guid]
      && |s.db.buffer| == 1 && s.db.buffer[0].id == s.db.buffer[0].checkId == 1 && !s.db.buffer[0].sent
  {
    var e1, e2, e3 := Changes(Upsert(a)), Looks(0, r), Stores(0, true);
    AfterSnoc([], e1);
    AfterSnoc([e1], e2);
    AfterSnoc([e1, e2], e3);
    assert [] + [e1] == [e1] && [e1] + [e2] == [e1, e2] && [e1, e2] + [e3] == [e1, e2, e3];
    assert After([e1]).db.checks[a.guid].id == 1;
  }

  /** A check synced, a result buffered for it, the check removed, another synced
      before the result is sent: SQLite gives the second the first one's rowid,
      and the result is listed under the wrong guid. */
  lemma ReuseMisattributes(a: Check, b: Check, r: Result)
    requires a.guid != b.guid && !a.deleted && !b.deleted && r.guid == a.guid
    requires MIN_INSTANT <= r.ranAt < MAX_INSTANT
    ensures
      var s := After([Changes(Upsert(a)), Looks(0, r), Stores(0, true), Changes(Remove(a.guid)), Changes(Upsert(b))]);
      && s.origin == map[1 := a.guid]
      && exists row :: row in s.db.buffer && row.id == 1 && !row.sent
                       && b.guid in s.db.checks && s.db.checks[b.guid].id == row.checkId
  {
    var e4, e5 := Changes(Remove(a.guid)), Changes(Upsert(b));
    var first := [Changes(Upsert(a)), Looks(0, r), Stores(0, true)];
    OneBuffered(a, r);
    AfterSnoc(first, e4);
    AfterSnoc(first + [e4], e5);
    assert first + [e4] + [e5] == [Changes(Upsert(a)), Looks(0, r), Stores(0, true), e4, e5];
    var s4 := After(first + [e4]);
    assert s4.db.checks == map[];
    var s5 := Step(s4, e5);
    assert s5.db.buffer[0] in s5.db.buffer;
  }
}
