/** monitor/store.go: the local database as an object whose tables its methods
    update. A statement or transaction either takes effect whole or not at all. */
module Stores {
  import opened Base
  import opened Checks
  import opened Text
  import opened Timestamp
  import opened Tables

  /** A buffered row's local id with the result it is uploaded as. */
  datatype Listed = Listed(id: int, result: Result)

  /** The upload form of a list of rows, row by row. */
  ghost predicate Lists(checks: CheckTable, rows: seq<BufRow>, out: seq<Listed>) {
    && |out| == |rows|
    && forall i :: 0 <= i < |rows| ==> out[i].id == rows[i].id && IsWire(checks, rows[i], out[i].result)
  }

  /** A name, for the byte order SQLite sorts text in. */
  function AsText(name: Bytes): string {
    seq(|name|, i requires 0 <= i < |name| => name[i] as char)
  }

  predicate NameLess(a: Bytes, b: Bytes) {
    LexLess(AsText(a), AsText(b))
  }

  lemma TextParts(x: Bytes, y: Bytes)
    ensures AsText(x + y) == AsText(x) + AsText(y)
  {
  }

  /** Byte order: the first byte that differs decides, and a proper prefix comes first. */
  lemma NameOrder(x: Bytes, p: byte, s: Bytes, q: byte, t: Bytes)
    ensures p < q ==> NameLess(x + ([p] + s), x + ([q] + t)) && !NameLess(x + ([q] + t), x + ([p] + s))
    ensures NameLess(x, x + ([p] + s)) && !NameLess(x + ([p] + s), x)
  {
    TextParts(x, [p] + s);
    TextParts(x, [q] + t);
    var a, b, c := AsText(x), AsText([p] + s), AsText([q] + t);
    LexConcat(a, a, b, c);
    LexConcat(a, a, c, b);
    LexConcat(a, a, [], b);
    LexTrichotomy(a, a);
    assert a + [] == a;
    LexTrichotomy(a, a + b);
  }

  lemma NameTransitive(a: Bytes, b: Bytes, c: Bytes)
    ensures NameLess(a, b) && NameLess(b, c) ==> NameLess(a, c)
  {
    if NameLess(a, b) && NameLess(b, c) {
      LexTransitive(AsText(a), AsText(b), AsText(c));
    }
  }

  predicate ByName(checks: seq<Check>) {
    forall i, j :: 0 <= i < j < |checks| ==> !NameLess(checks[j].meta.name, checks[i].meta.name)
  }

  predicate IsEnabled(checks: CheckTable, c: Check) {
    c.guid in checks && checks[c.guid].meta.enabled && c == EnabledCheck(checks, c.guid)
  }

  lemma OneMoreListed(checks: CheckTable, listed: seq<Check>, g: Bytes)
    requires ValidChecks(checks) && g in checks && DistinctIds(listed) && ByName(listed)
    requires forall c :: c in listed ==>
      IsEnabled(checks, c) && c.guid != g && !NameLess(checks[g].meta.name, c.meta.name)
    ensures DistinctIds(listed + [EnabledCheck(checks, g)]) && ByName(listed + [EnabledCheck(checks, g)])
  {
    forall i | 0 <= i < |listed|
      ensures listed[i].id != checks[g].id && !NameLess(checks[g].meta.name, listed[i].meta.name)
    {
      assert listed[i] in listed && IsEnabled(checks, listed[i]);
    }
  }

  class Store {
    var checks: CheckTable
    var buffer: seq<BufRow>
    var lastResultId: nat
    var lastSyncedAt: Option<string>

    function State(): DB
      reads this
    {
      DB(checks, buffer, lastResultId, lastSyncedAt)
    }

    ghost predicate Valid()
      reads this
    {
      Tables.Valid(State())
    }

    /** A freshly migrated database. */
    constructor ()
      ensures Valid() && State() == DB(map[], [], 0, None)
    {
      checks, buffer, lastResultId, lastSyncedAt := map[], [], 0, None;
    }

    /** The rowid SQLite assigns: one above the largest in the table. */
    static method AssignId(table: CheckTable) returns (id: int)
      ensures id == NewId(table)
    {
      var rest := table.Keys;
      id := 0;
      var some := false;
      while rest != {}
        invariant rest <= table.Keys
        invariant some <==> rest != table.Keys
        invariant !some ==> id == 0
        invariant some ==> exists g :: g in table && g !in rest && table[g].id == id
        invariant forall g :: g in table && g !in rest ==> table[g].id <= id
        decreases |rest|
      {
        var g :| g in rest;
        if !some || table[g].id > id {
          id := table[g].id;
        }
        some := true;
        rest := rest - {g};
      }
      id := id + 1;
    }

    /** One transaction. `failAt` is the statement at which it fails or the
        process dies, rolling everything back. */
    method ApplyChecksDelta(delta: seq<Check>, serverTime: Instant, failAt: Option<nat>) returns (ok: bool)
      requires Valid()
      modifies this
      ensures Valid()
      ensures ok <==> failAt.None? || failAt.value > |delta|
      ensures State() == if ok then ApplyDelta(old(State()), delta, serverTime) else old(State())
    {
      var tx := checks;
      ghost var ws := DeltaWrites(delta);
      var i := 0;
      while i < |delta|
        invariant 0 <= i <= |delta|
        invariant State() == old(State())
        invariant tx == ApplyWrites(checks, ws[..i])
        invariant failAt.Some? ==> i <= failAt.value
      {
        if failAt == Some(i) {
          return false;
        }
        var c := delta[i];
        ApplyOneMore(checks, ws, i);
        if c.deleted {
          tx := tx - {c.guid};
        } else {
          var id := AssignId(tx);
          tx := tx[c.guid := SyncRow(RowOf(tx, c.guid), c, id)];
        }
        i := i + 1;
      }
      if failAt == Some(i) {
        return false;
      }
      assert ws[..i] == ws;
      ApplyWritesValid(checks, ws);
      checks, lastSyncedAt := tx, Some(FormatTimestamp(serverTime));
      return true;
    }

    /** The epoch before the first sync; afterwards, to the nanosecond, the time the
        last one stored. None when the column does not parse. */
    method GetLastSyncedAt() returns (t: Option<int>)
      ensures lastSyncedAt.None? ==> t == Some(0)
      ensures forall w: Instant :: lastSyncedAt == Some(FormatTimestamp(w)) ==> t == Some(w)
      ensures lastSyncedAt.Some? && Parse(lastSyncedAt.value).None? ==> t.None?
      ensures t == SyncedUpTo(State())
    {
      if lastSyncedAt.None? {
        return Some(0);
      }
      t := Parse(lastSyncedAt.value);
      forall w: Instant | lastSyncedAt == Some(FormatTimestamp(w)) ensures t == Some(w) {
        TimestampRoundTrip(w);
      }
    }

    method ImportPrivateCheck(c: Check) returns (ok: bool)
      requires Valid()
      modifies this
      ensures Valid()
      ensures ok <==> c.guid != []
      ensures State() == if ok then old(State()).(checks := ApplyWrite(old(checks), Import(c))) else old(State())
      ensures ok ==> c.guid in checks
      ensures
        var given := c.content;
        (ok && given.matchMode != [] && given.timeoutSec >= 0 && given.maxResponseTimeMs >= 0
         && given.certExpiryWarnDays >= 0) ==> checks[c.guid].content == given
    {
      if c.guid == [] {
        return false;
      }
      ApplyWriteValid(checks, Import(c));
      var id := AssignId(checks);
      checks := checks[c.guid := ImportRow(RowOf(checks, c.guid), c, id)];
      return true;
    }

    /** Of some rows, one that no other's name precedes. */
    method FirstByName(keys: set<Bytes>) returns (first: Bytes)
      requires keys != {} && keys <= checks.Keys
      ensures first in keys && forall g :: g in keys ==> !NameLess(checks[g].meta.name, checks[first].meta.name)
    {
      first :| first in keys;
      LexTrichotomy(AsText(checks[first].meta.name), AsText(checks[first].meta.name));
      var rest := keys - {first};
      while rest != {}
        invariant rest <= keys && first in keys
        invariant forall g :: g in keys - rest ==> !NameLess(checks[g].meta.name, checks[first].meta.name)
        decreases |rest|
      {
        var g :| g in rest;
        if NameLess(checks[g].meta.name, checks[first].meta.name) {
          EarlierIsLeast(keys - rest, g, first);
          first := g;
        }
        rest := rest - {g};
      }
    }

    lemma EarlierIsLeast(seen: set<Bytes>, g: Bytes, first: Bytes)
      requires seen <= checks.Keys && g in checks && first in checks
      requires NameLess(checks[g].meta.name, checks[first].meta.name)
      requires forall h :: h in seen ==> !NameLess(checks[h].meta.name, checks[first].meta.name)
      ensures forall h :: h in seen + {g} ==> !NameLess(checks[h].meta.name, checks[g].meta.name)
    {
      LexTrichotomy(AsText(checks[g].meta.name), AsText(checks[g].meta.name));
      forall h | h in seen ensures !NameLess(checks[h].meta.name, checks[g].meta.name) {
        NameTransitive(checks[h].meta.name, checks[g].meta.name, checks[first].meta.name);
      }
    }

    /** Every check the runner should be executing, each once, by name; None when the
        query fails. */
    method ListEnabledChecks(fails: bool) returns (out: Option<seq<Check>>)
      requires Valid()
      ensures out.None? <==> fails
      ensures out.Some? ==> forall c :: c in out.value <==> IsEnabled(checks, c)
      ensures out.Some? ==> DistinctIds(out.value) && ByName(out.value)
    {
      if fails {
        return None;
      }
      var rest := set g | g in checks && checks[g].meta.enabled;
      var listed := [];
      while rest != {}
        invariant forall g :: g in rest ==> g in checks && checks[g].meta.enabled
        invariant forall c :: c in listed <==> IsEnabled(checks, c) && c.guid !in rest
        invariant DistinctIds(listed) && ByName(listed)
        invariant forall c, g :: c in listed && g in rest ==> !NameLess(checks[g].meta.name, c.meta.name)
        decreases |rest|
      {
        var g := FirstByName(rest);
        OneMoreListed(checks, listed, g);
        listed, rest := listed + [EnabledCheck(checks, g)], rest - {g};
      }
      return Some(listed);
    }

    /** BufferResult's lookup; `fails` is an I/O error. */
    method ResolveCheck(guid: Bytes, fails: bool) returns (id: Option<int>)
      ensures id.Some? <==> !fails && guid in checks
      ensures id.Some? ==> checks[guid].id == id.value
      ensures Valid() && id.Some? ==> forall g :: g in checks && checks[g].id == id.value ==> g == guid
    {
      if fails || guid !in checks {
        return None;
      }
      return Some(checks[guid].id);
    }

    /** BufferResult's INSERT, a statement of its own: the row takes the rowid found,
        whether a check still has it or not. */
    method InsertResult(checkId: int, r: Result, fails: bool) returns (ok: bool)
      requires Valid() && MIN_INSTANT <= r.ranAt < MAX_INSTANT
      modifies this`buffer, this`lastResultId
      ensures Valid()
      ensures ok <==> !fails
      ensures State() == if ok then Inserted(old(State()), checkId, r) else old(State())
    {
      if fails {
        return false;
      }
      var row := NewBufRow(lastResultId + 1, checkId, r);
      ValidAppend(buffer, lastResultId, row);
      buffer, lastResultId := buffer + [row], lastResultId + 1;
      return true;
    }

    /** With nothing between its two statements, either of which may fail. */
    method BufferResult(r: Result, lookupFails: bool, insertFails: bool) returns (ok: bool)
      requires Valid() && MIN_INSTANT <= r.ranAt < MAX_INSTANT
      modifies this
      ensures Valid()
      ensures ok <==> r.guid in old(checks) && !lookupFails && !insertFails
      ensures ok ==> Buffered(old(State()), r) == Some(State())
      ensures !ok ==> State() == old(State())
    {
      var id := ResolveCheck(r.guid, lookupFails);
      if id.None? {
        return false;
      }
      ok := InsertResult(id.value, r, insertFails);
    }

    method ScanResult(row: BufRow) returns (ok: bool, r: Result)
      requires Joined(checks, row.checkId)
      ensures ok <==> Readable(row)
      ensures ok ==> IsWire(checks, row, r)
    {
      var g :| g in checks && checks[g].id == row.checkId;
      var parsed := Parse(row.ranAt);
      ok := parsed.Some?;
      r := Result(g, if ok then parsed.value else 0, row.success, row.httpStatus, row.latencyMs, row.error,
                  row.responseSample);
    }

    /** Up to `limit` unsent rows that still join a check, oldest first. Fails when
        a listed row's timestamp does not parse. */
    method ListUnsent(limit: nat) returns (ok: bool, out: seq<Listed>)
      requires Valid()
      ensures
        var rows := Limit(Eligible(checks, buffer), limit);
        && (ok <==> AllReadable(rows))
        && (ok ==> Lists(checks, rows, out))
    {
      var rows := Limit(Eligible(checks, buffer), limit);
      EligibleIff(checks, buffer);
      forall i | 0 <= i < |rows| ensures Joined(checks, rows[i].checkId) {
        assert rows[i] in Eligible(checks, buffer);
      }
      ok, out := ScanAll(rows);
    }

    method ScanAll(rows: seq<BufRow>) returns (ok: bool, out: seq<Listed>)
      requires forall i :: 0 <= i < |rows| ==> Joined(checks, rows[i].checkId)
      ensures ok <==> AllReadable(rows)
      ensures ok ==> Lists(checks, rows, out)
    {
      out := [];
      var i := 0;
      while i < |rows|
        invariant 0 <= i <= |rows|
        invariant AllReadable(rows[..i])
        invariant Lists(checks, rows[..i], out)
      {
        var parsed, r := ScanResult(rows[i]);
        if !parsed {
          assert rows[i] in rows;
          return false, [];
        }
        out := out + [Listed(rows[i].id, r)];
        i := i + 1;
      }
      assert rows[..i] == rows;
      return true, out;
    }

    method CountUnsent() returns (n: nat)
      requires Valid()
      ensures n == Tables.CountUnsent(buffer) == |UnsentIds(buffer)|
    {
      n := 0;
      var i := 0;
      while i < |buffer|
        invariant 0 <= i <= |buffer| && n == Tables.CountUnsent(buffer[..i])
      {
        assert buffer[..i + 1][..i] == buffer[..i];
        if !buffer[i].sent {
          n := n + 1;
        }
        i := i + 1;
      }
      assert buffer[..i] == buffer;
      CountIsOfUnsent(buffer, lastResultId);
    }

    method MarkSent(ids: seq<int>)
      requires Valid()
      modifies this
      ensures Valid()
      ensures State() == old(State()).(buffer := Tables.MarkSent(old(buffer), set id | id in ids))
    {
      ghost var all := set id | id in ids;
      ValidMark(buffer, lastResultId, all);
      var out := [];
      var i := 0;
      while i < |buffer|
        invariant 0 <= i <= |buffer| && |out| == i
        invariant State() == old(State())
        invariant forall k :: 0 <= k < i ==> out[k] == MarkRow(buffer[k], all)
      {
        out := out + [if buffer[i].id in ids then buffer[i].(sent := true) else buffer[i]];
        i := i + 1;
      }
      assert out == Tables.MarkSent(buffer, all);
      buffer := out;
    }

    method PurgeSentOlderThan(cutoff: Instant)
      requires Valid()
      modifies this
      ensures Valid()
      ensures State() == old(State()).(buffer := Purged(old(buffer), FormatSecond(cutoff)))
    {
      var text := FormatSecond(cutoff);
      ValidPurge(buffer, lastResultId, text);
      var out := [];
      var i := 0;
      while i < |buffer|
        invariant 0 <= i <= |buffer|
        invariant State() == old(State())
        invariant out == Purged(buffer[..i], text)
      {
        assert buffer[..i + 1][..i] == buffer[..i];
        if !Purgeable(buffer[i], text) {
          out := out + [buffer[i]];
        }
        i := i + 1;
      }
      assert buffer[..i] == buffer;
      buffer := out;
    }
  }
}
