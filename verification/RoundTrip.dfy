/** What goes into the store comes out of it: a result through BufferResult and
    ListUnsent, a definition through ImportPrivateCheck and ListEnabledChecks. */
module RoundTrip {
  import opened Base
  import opened Checks
  import opened Timestamp
  import opened Tables
  import opened Stores

  lemma OneMoreEligible(before: DB, row: BufRow)
    requires IsEligible(before.checks, row)
    ensures Eligible(before.checks, before.buffer + [row]) == Eligible(before.checks, before.buffer) + [row]
  {
    assert (before.buffer + [row])[..|before.buffer|] == before.buffer;
  }

  /** A result buffered for a known check is the last one listed, if the listing is
      long enough and can read what was there: the result itself, to the second. */
  method BufferThenList(store: Store, r: Result, limit: nat) returns (ok: bool, listed: seq<Listed>)
    requires store.Valid() && AllReadable(store.buffer) && r.guid in store.checks
    requires MIN_INSTANT <= r.ranAt < MAX_INSTANT && |Eligible(store.checks, store.buffer)| < limit
    modifies store
    ensures ok && |listed| == |old(Eligible(store.checks, store.buffer))| + 1
    ensures
      var last := listed[|listed| - 1];
      && last.id == old(store.lastResultId) + 1
      && last.result.guid == r.guid && last.result.ranAt == r.ranAt / SECOND * SECOND
      && last.result.success == r.success && last.result.httpStatus == r.httpStatus
      && last.result.latencyMs == r.latencyMs && last.result.error == r.error
      && last.result.responseSample == r.responseSample
  {
    ghost var before := store.State();
    var buffered := store.BufferResult(r, false, false);
    ghost var row := NewBufRow(before.lastResultId + 1, before.checks[r.guid].id, r);
    assert store.checks[r.guid].id == row.checkId;
    OneMoreEligible(before, row);
    SecondRoundTrip(r.ranAt);
    EligibleIff(store.checks, store.buffer);
    ok, listed := store.ListUnsent(limit);
    ListedAsBuffered(store.checks, row.id, r, listed[|listed| - 1].result);
  }

  /** A private definition imported for an enabled check is listed for the runner with
      every column it was given, its limits not negative and its match mode named;
      the server's metadata, if the check was known, is untouched. */
  method ImportThenList(store: Store, c: Check) returns (found: Check, listed: seq<Check>)
    requires store.Valid() && c.guid != [] && c.content.matchMode != []
    requires c.content.timeoutSec >= 0 && c.content.maxResponseTimeMs >= 0 && c.content.certExpiryWarnDays >= 0
    requires if c.guid in store.checks then store.checks[c.guid].meta.enabled else c.meta.enabled
    modifies store
    ensures found in listed && found.guid == c.guid && found.content == c.content && found.meta.enabled
    ensures
      match RowOf(old(store.checks), c.guid)
      case Some(row) => found.meta == row.meta && found.id == row.id
      case None => found.meta.name == c.meta.name && found.meta.monitorCount == 1 && found.meta.monitorRank == 0
  {
    var ok := store.ImportPrivateCheck(c);
    var listing := store.ListEnabledChecks(false);
    listed := listing.value;
    found := EnabledCheck(store.checks, c.guid);
    assert IsEnabled(store.checks, found);
  }
}
