/** The monitor's SQLite tables as values, and what each statement of
    monitor/store.go makes of them. */
module Tables {
  import opened Base
  import opened Checks
  import opened Text
  import opened Timestamp

  /** A row of `checks`; the guid, unique, is the table's key here. */
  datatype CheckRow = CheckRow(id: int, content: Content, meta: Meta, locallyDefined: bool)

  type CheckTable = map<Bytes, CheckRow>

  /** A row of `results_buffer`. The table is kept in id order. */
  datatype BufRow = BufRow(id: int, checkId: int, ranAt: string, success: bool, httpStatus: int,
                           latencyMs: int, error: Bytes, responseSample: Bytes, sent: bool)

  datatype DB = DB(
    checks: CheckTable,
    buffer: seq<BufRow>,
    /** AUTOINCREMENT's memory: the largest id ever given to a result. */
    lastResultId: nat,
    lastSyncedAt: Option<string>)

  // ----- checks -----

  /** The largest id in the table; 0 for an empty one. */
  ghost function MaxId(checks: CheckTable): (m: int)
    ensures checks == map[] ==> m == 0
    ensures checks != map[] ==> exists g :: g in checks && checks[g].id == m
    ensures forall g :: g in checks ==> checks[g].id <= m
  {
    if checks == map[] then 0
    else
      var g :| g in checks;
      var rest := checks - {g};
      assert forall h :: h in checks ==> h == g || (h in rest && rest[h] == checks[h]);
      if rest == map[] then checks[g].id
      else
        var m := MaxId(rest);
        if checks[g].id > m then checks[g].id else m
  }

  /** INTEGER PRIMARY KEY without AUTOINCREMENT: one above the largest id there. */
  ghost function NewId(checks: CheckTable): int {
    MaxId(checks) + 1
  }

  ghost predicate ValidChecks(checks: CheckTable) {
    && (forall g :: g in checks ==> checks[g].id >= 1)
    && (forall g, h :: g in checks && h in checks && checks[g].id == checks[h].id ==> g == h)
  }

  function RowOf(checks: CheckTable, guid: Bytes): Option<CheckRow> {
    if guid in checks then Some(checks[guid]) else None
  }

  /** A check that carries a URL carries its whole definition. */
  predicate BearsContent(c: Check) {
    c.content.url != []
  }

  /** The upsert of ApplyChecksDelta. */
  function SyncRow(prior: Option<CheckRow>, c: Check, newId: int): CheckRow {
    match prior
    case None => CheckRow(newId, c.content, c.meta, false)
    case Some(row) =>
      if BearsContent(c) then CheckRow(row.id, c.content, c.meta, false) else row.(meta := c.meta)
  }

  function Floor0(x: int): int {
    if x < 0 then 0 else x
  }

  function ImportedContent(c: Content): Content {
    c.(matchMode := if c.matchMode == [] then MATCH_CONTAINS else c.matchMode,
       timeoutSec := Floor0(c.timeoutSec),
       maxResponseTimeMs := Floor0(c.maxResponseTimeMs),
       certExpiryWarnDays := Floor0(c.certExpiryWarnDays))
  }

  /** Column by column: an import writes every column as it is given, but an empty
      match mode and negative limits. */
  lemma ImportedColumns(c: Content)
    ensures
      var d := ImportedContent(c);
      && d.url == c.url && d.matchString == c.matchString && d.postData == c.postData && d.headers == c.headers
      && d.disableRedirects == c.disableRedirects && d.statusCodeOp == c.statusCodeOp
      && d.statusCodeValue == c.statusCodeValue && d.insecureSkipVerify == c.insecureSkipVerify
      && d.invertResult == c.invertResult
      && (c.matchMode != [] ==> d.matchMode == c.matchMode) && (c.matchMode == [] ==> d.matchMode == MATCH_CONTAINS)
      && d.timeoutSec >= 0 && d.timeoutSec >= c.timeoutSec && d.timeoutSec in {0, c.timeoutSec}
      && d.maxResponseTimeMs >= 0 && d.maxResponseTimeMs >= c.maxResponseTimeMs
      && d.maxResponseTimeMs in {0, c.maxResponseTimeMs}
      && d.certExpiryWarnDays >= 0 && d.certExpiryWarnDays >= c.certExpiryWarnDays
      && d.certExpiryWarnDays in {0, c.certExpiryWarnDays}
    ensures c.matchMode != [] && c.timeoutSec >= 0 && c.maxResponseTimeMs >= 0 && c.certExpiryWarnDays >= 0
      ==> ImportedContent(c) == c
  {
  }

  /** The metadata an import seeds a new row with; the counts are the columns'
      defaults. */
  function SeedMeta(m: Meta): Meta {
    Meta(m.name, if m.intervalSec == 0 then MIN_INTERVAL_SEC else m.intervalSec, m.enabled,
         Floor0(m.resultDetailMaxChars), 1, 0)
  }

  /** Column by column. */
  lemma SeededColumns(m: Meta)
    ensures
      var d := SeedMeta(m);
      && d.name == m.name && d.enabled == m.enabled && d.monitorCount == 1 && d.monitorRank == 0
      && (m.intervalSec == 0 ==> d.intervalSec == 10) && (m.intervalSec != 0 ==> d.intervalSec == m.intervalSec)
      && d.resultDetailMaxChars >= 0 && d.resultDetailMaxChars >= m.resultDetailMaxChars
      && d.resultDetailMaxChars in {0, m.resultDetailMaxChars}
  {
  }

  function ImportRow(prior: Option<CheckRow>, c: Check, newId: int): CheckRow {
    match prior
    case None => CheckRow(newId, ImportedContent(c.content), SeedMeta(c.meta), true)
    case Some(row) => row.(content := ImportedContent(c.content), locallyDefined := true)
  }

  /** One statement that changes `checks`. */
  datatype Write = Upsert(check: Check) | Remove(guid: Bytes) | Import(check: Check)

  function Target(w: Write): Bytes {
    match w
    case Upsert(c) => c.guid
    case Remove(g) => g
    case Import(c) => c.guid
  }

  ghost function ApplyWrite(checks: CheckTable, w: Write): CheckTable {
    match w
    case Upsert(c) => checks[c.guid := SyncRow(RowOf(checks, c.guid), c, NewId(checks))]
    case Remove(g) => checks - {g}
    case Import(c) => checks[c.guid := ImportRow(RowOf(checks, c.guid), c, NewId(checks))]
  }

  ghost function ApplyWrites(checks: CheckTable, ws: seq<Write>): CheckTable {
    if ws == [] then checks else ApplyWrite(ApplyWrites(checks, ws[..|ws| - 1]), ws[|ws| - 1])
  }

  lemma ApplyOneMore(checks: CheckTable, ws: seq<Write>, i: nat)
    requires i < |ws|
    ensures ApplyWrites(checks, ws[..i + 1]) == ApplyWrite(ApplyWrites(checks, ws[..i]), ws[i])
  {
    assert ws[..i + 1][..i] == ws[..i];
  }

  lemma {:induction false} ApplyInTwo(checks: CheckTable, first: seq<Write>, second: seq<Write>)
    ensures ApplyWrites(checks, first + second) == ApplyWrites(ApplyWrites(checks, first), second)
  {
    if second == [] {
      assert first + second == first;
    } else {
      var all, n := first + second, |second| - 1;
      assert all[..|all| - 1] == first + second[..n];
      ApplyInTwo(checks, first, second[..n]);
    }
  }

  function DeltaWrite(c: Check): Write {
    if c.deleted then Remove(c.guid) else Upsert(c)
  }

  function DeltaWrites(delta: seq<Check>): (ws: seq<Write>)
    ensures |ws| == |delta| && forall i :: 0 <= i < |ws| ==> ws[i] == DeltaWrite(delta[i])
  {
    seq(|delta|, i requires 0 <= i < |delta| => DeltaWrite(delta[i]))
  }

  lemma ApplyWriteValid(checks: CheckTable, w: Write)
    requires ValidChecks(checks)
    ensures ValidChecks(ApplyWrite(checks, w))
  {
    if checks != map[] {
      var g :| g in checks && checks[g].id == MaxId(checks);
      assert checks[g].id >= 1;
    }
  }

  lemma {:induction false} ApplyWritesValid(checks: CheckTable, ws: seq<Write>)
    requires ValidChecks(checks)
    ensures ValidChecks(ApplyWrites(checks, ws))
  {
    if ws != [] {
      ApplyWritesValid(checks, ws[..|ws| - 1]);
      ApplyWriteValid(ApplyWrites(checks, ws[..|ws| - 1]), ws[|ws| - 1]);
    }
  }

  ghost function ApplyDelta(db: DB, delta: seq<Check>, serverTime: Instant): DB {
    db.(checks := ApplyWrites(db.checks, DeltaWrites(delta)), lastSyncedAt := Some(FormatTimestamp(serverTime)))
  }

  /** The watermark the next fetch starts from: the epoch before the first sync. */
  function SyncedUpTo(db: DB): Option<int> {
    if db.lastSyncedAt.None? then Some(0) else Parse(db.lastSyncedAt.value)
  }

  /** Whatever delta came with it, the watermark a sync stored is the one the next
      sync starts from. */
  lemma WatermarkRoundTrip(db: DB, delta: seq<Check>, serverTime: Instant)
    ensures SyncedUpTo(ApplyDelta(db, delta, serverTime)) == Some(serverTime)
  {
    TimestampRoundTrip(serverTime);
  }

  // ----- results_buffer -----

  ghost predicate ValidBuffer(buffer: seq<BufRow>, lastResultId: nat) {
    && (forall i :: 0 <= i < |buffer| ==> 1 <= buffer[i].id <= lastResultId)
    && (forall i, j :: 0 <= i < j < |buffer| ==> buffer[i].id < buffer[j].id)
  }

  ghost predicate Valid(db: DB) {
    ValidChecks(db.checks) && ValidBuffer(db.buffer, db.lastResultId)
  }

  function NewBufRow(id: int, checkId: int, r: Result): BufRow
    requires MIN_INSTANT <= r.ranAt < MAX_INSTANT
  {
    BufRow(id, checkId, FormatSecond(r.ranAt), r.success, r.httpStatus, r.latencyMs, r.error, r.responseSample, false)
  }

  /** BufferResult's INSERT, under the rowid its lookup found. */
  function Inserted(db: DB, checkId: int, r: Result): DB
    requires MIN_INSTANT <= r.ranAt < MAX_INSTANT
  {
    db.(buffer := db.buffer + [NewBufRow(db.lastResultId + 1, checkId, r)], lastResultId := db.lastResultId + 1)
  }

  /** BufferResult with nothing between its lookup and its INSERT. */
  function Buffered(db: DB, r: Result): Option<DB>
    requires MIN_INSTANT <= r.ranAt < MAX_INSTANT
  {
    if r.guid !in db.checks then None else Some(Inserted(db, db.checks[r.guid].id, r))
  }

  /** The join of a result with its check finds a partner. */
  predicate Joined(checks: CheckTable, checkId: int) {
    exists g :: g in checks && checks[g].id == checkId
  }

  predicate IsEligible(checks: CheckTable, row: BufRow) {
    !row.sent && Joined(checks, row.checkId)
  }

  /** The rows ListUnsent ranges over, oldest first. */
  function Eligible(checks: CheckTable, buffer: seq<BufRow>): seq<BufRow> {
    if buffer == [] then []
    else
      var last := buffer[|buffer| - 1];
      var front := Eligible(checks, buffer[..|buffer| - 1]);
      if IsEligible(checks, last) then front + [last] else front
  }

  lemma {:induction false} EligibleIff(checks: CheckTable, buffer: seq<BufRow>)
    ensures forall row :: row in Eligible(checks, buffer) <==> row in buffer && IsEligible(checks, row)
  {
    if buffer != [] {
      EligibleIff(checks, buffer[..|buffer| - 1]);
      assert buffer == buffer[..|buffer| - 1] + [buffer[|buffer| - 1]];
    }
  }

  function EnabledCheck(checks: CheckTable, guid: Bytes): Check
    requires guid in checks
  {
    Check(checks[guid].id, guid, checks[guid].content, checks[guid].meta, 0, false)
  }

  /** Its timestamp can be read back. */
  predicate Readable(row: BufRow) {
    Parse(row.ranAt).Some?
  }

  predicate AllReadable(rows: seq<BufRow>) {
    forall row :: row in rows ==> Readable(row)
  }

  /** What a listed row goes on the wire as: under its check's guid, never its
      local id. */
  predicate IsWire(checks: CheckTable, row: BufRow, r: Result) {
    && r.guid in checks && checks[r.guid].id == row.checkId
    && Parse(row.ranAt) == Some(r.ranAt)
    && r == Result(r.guid, r.ranAt, row.success, row.httpStatus, row.latencyMs, row.error, row.responseSample)
  }

  /** A result comes off the buffer as it went in, to the second: while its check
      keeps its rowid, what it goes on the wire as is the result itself. */
  lemma ListedAsBuffered(checks: CheckTable, id: int, r: Result, out: Result)
    requires ValidChecks(checks) && r.guid in checks && MIN_INSTANT <= r.ranAt < MAX_INSTANT
    ensures IsWire(checks, NewBufRow(id, checks[r.guid].id, r), out) <==> out == r.(ranAt := r.ranAt / SECOND * SECOND)
  {
    SecondRoundTrip(r.ranAt);
  }

  function Limit<T>(s: seq<T>, limit: nat): seq<T> {
    if |s| <= limit then s else s[..limit]
  }

  function MarkRow(row: BufRow, ids: set<int>): BufRow {
    if row.id in ids then row.(sent := true) else row
  }

  function MarkSent(buffer: seq<BufRow>, ids: set<int>): (out: seq<BufRow>)
    ensures |out| == |buffer| && forall i :: 0 <= i < |out| ==> out[i] == MarkRow(buffer[i], ids)
  {
    seq(|buffer|, i requires 0 <= i < |buffer| => MarkRow(buffer[i], ids))
  }

  /** What PurgeSentOlderThan deletes, comparing text. */
  predicate Purgeable(row: BufRow, cutoff: string) {
    row.sent && LexLess(row.ranAt, cutoff)
  }

  function Purged(buffer: seq<BufRow>, cutoff: string): (out: seq<BufRow>)
    ensures |out| <= |buffer|
    ensures forall row :: row in out <==> row in buffer && !Purgeable(row, cutoff)
  {
    if buffer == [] then []
    else
      var last := buffer[|buffer| - 1];
      var front := Purged(buffer[..|buffer| - 1], cutoff);
      assert buffer == buffer[..|buffer| - 1] + [last];
      if Purgeable(last, cutoff) then front else front + [last]
  }

  function CountUnsent(buffer: seq<BufRow>): nat {
    if buffer == [] then 0
    else CountUnsent(buffer[..|buffer| - 1]) + if buffer[|buffer| - 1].sent then 0 else 1
  }

  ghost function UnsentIds(buffer: seq<BufRow>): set<int> {
    set row | row in buffer && !row.sent :: row.id
  }

  lemma UnsentOneMore(buffer: seq<BufRow>, last: nat)
    requires ValidBuffer(buffer, last) && buffer != []
    ensures
      var n := |buffer| - 1;
      var front := UnsentIds(buffer[..n]);
      if buffer[n].sent then UnsentIds(buffer) == front
      else buffer[n].id !in front && UnsentIds(buffer) == front + {buffer[n].id}
  {
    var n := |buffer| - 1;
    assert buffer == buffer[..n] + [buffer[n]];
    forall row | row in buffer[..n] ensures row.id != buffer[n].id {
      var i :| 0 <= i < n && buffer[i] == row;
    }
  }

  /** The count is of the distinct results not yet confirmed. */
  lemma {:induction false} CountIsOfUnsent(buffer: seq<BufRow>, last: nat)
    requires ValidBuffer(buffer, last)
    ensures CountUnsent(buffer) == |UnsentIds(buffer)|
  {
    if buffer != [] {
      CountIsOfUnsent(buffer[..|buffer| - 1], last);
      UnsentOneMore(buffer, last);
    }
  }

  /** Text comparison deletes exactly the sent rows whose whole second precedes
      the whole second of the cutoff. */
  lemma PurgeExact(row: BufRow, ranAt: Instant, cutoff: Instant)
    requires row.ranAt == FormatSecond(ranAt)
    ensures Purgeable(row, FormatSecond(cutoff)) <==> row.sent && ranAt / SECOND < cutoff / SECOND
  {
    SecondOrder(ranAt, cutoff);
  }

  // ----- What each statement keeps -----

  lemma ValidAppend(buffer: seq<BufRow>, last: nat, row: BufRow)
    requires ValidBuffer(buffer, last) && row.id == last + 1
    ensures ValidBuffer(buffer + [row], last + 1)
  {
  }

  lemma ValidMark(buffer: seq<BufRow>, last: nat, ids: set<int>)
    requires ValidBuffer(buffer, last)
    ensures ValidBuffer(MarkSent(buffer, ids), last)
  {
  }

  lemma AppendLast(buffer: seq<BufRow>, last: nat, out: seq<BufRow>)
    requires buffer != [] && ValidBuffer(buffer, last) && ValidBuffer(out, last)
    requires forall row :: row in out ==> row in buffer[..|buffer| - 1]
    ensures ValidBuffer(out + [buffer[|buffer| - 1]], last)
  {
    var n := |buffer| - 1;
    forall i | 0 <= i < |out| ensures out[i].id < buffer[n].id {
      assert out[i] in out;
      assert out[i] in buffer[..n];
      var k :| 0 <= k < n && buffer[k] == out[i];
    }
  }

  /** Deleting rows keeps the order of those that stay. */
  lemma {:induction false} ValidPurge(buffer: seq<BufRow>, last: nat, cutoff: string)
    requires ValidBuffer(buffer, last)
    ensures ValidBuffer(Purged(buffer, cutoff), last)
  {
    if buffer != [] {
      var front := buffer[..|buffer| - 1];
      ValidPurge(front, last, cutoff);
      AppendLast(buffer, last, Purged(front, cutoff));
    }
  }

  lemma {:induction false} EligibleSorted(checks: CheckTable, buffer: seq<BufRow>, last: nat)
    requires ValidBuffer(buffer, last)
    ensures ValidBuffer(Eligible(checks, buffer), last)
  {
    if buffer != [] {
      var front := buffer[..|buffer| - 1];
      EligibleSorted(checks, front, last);
      EligibleIff(checks, front);
      AppendLast(buffer, last, Eligible(checks, front));
    }
  }

  /** An id names one row. */
  lemma SameIdSameRow(buffer: seq<BufRow>, last: nat, a: BufRow, b: BufRow)
    requires ValidBuffer(buffer, last) && a in buffer && b in buffer && a.id == b.id
    ensures a == b
  {
    var i :| 0 <= i < |buffer| && buffer[i] == a;
    var j :| 0 <= j < |buffer| && buffer[j] == b;
    assert i < j ==> buffer[i].id < buffer[j].id;
    assert j < i ==> buffer[j].id < buffer[i].id;
  }
}
