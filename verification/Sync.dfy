/** monitor/sync.go: one sync, and the retry loop that waits for the first. */
module Sync {
  import opened Base
  import opened Checks
  import opened Timestamp
  import opened Tables
  import opened Stores
  import opened DeltaSync

  /** How one attempt goes: the server's reply, if any arrives; where the local
      transaction fails, if it does; and whether the agent is told to stop while
      it waits to try again. */
  datatype Attempt = Attempt(reply: Option<Pending>, failAt: Option<nat>, stopped: bool)

  predicate Succeeds(db: DB, a: Attempt) {
    SyncedUpTo(db).Some? && a.reply.Some? && (a.failAt.None? || a.failAt.value > |a.reply.value.delta|)
  }

  /** Fetch since the watermark, then apply: the delta and the new watermark land
      together or not at all. */
  method SyncOnce(store: Store, a: Attempt) returns (ok: bool, since: Option<int>)
    requires store.Valid()
    modifies store
    ensures store.Valid()
    ensures since == SyncedUpTo(old(store.State()))
    ensures ok <==> Succeeds(old(store.State()), a)
    ensures store.State() ==
      if ok then ApplyDelta(old(store.State()), a.reply.value.delta, a.reply.value.serverTime) else old(store.State())
  {
    since := store.GetLastSyncedAt();
    if since.None? || a.reply.None? {
      return false, since;
    }
    ok := store.ApplyChecksDelta(a.reply.value.delta, a.reply.value.serverTime, a.failAt);
  }

  const MAX_BACKOFF: int := 30 * SECOND

  function Pow2(k: nat): nat {
    if k == 0 then 1 else 2 * Pow2(k - 1)
  }

  /** The k-th wait: doubling from a second, capped at thirty. */
  function Backoff(k: nat): int {
    if Pow2(k) * SECOND > MAX_BACKOFF then MAX_BACKOFF else Pow2(k) * SECOND
  }

  /** One, two, four, eight, sixteen seconds, and thirty from then on. */
  lemma {:induction false} Backoffs(k: nat)
    ensures k < 5 ==> Backoff(k) == [1, 2, 4, 8, 16][k] * 1_000_000_000
    ensures k >= 5 ==> Pow2(k) >= 32 && Backoff(k) == 30_000_000_000
  {
    if k > 5 {
      Backoffs(k - 1);
    } else {
      assert Pow2(1) == 2 && Pow2(2) == 4 && Pow2(3) == 8 && Pow2(4) == 16 && Pow2(5) == 32;
    }
  }

  /** Retries until a sync succeeds (`ok`), or the agent is stopped or the attempts
      run out. Until it succeeds nothing changes. */
  method WaitForInitialSync(store: Store, attempts: seq<Attempt>) returns (ok: bool, waits: seq<int>)
    requires store.Valid()
    modifies store
    ensures store.Valid()
    ensures |waits| <= |attempts| && forall k :: 0 <= k < |waits| ==> waits[k] == Backoff(k)
    ensures ok ==> |waits| < |attempts| && Succeeds(old(store.State()), attempts[|waits|])
    ensures forall k :: 0 <= k < |waits| ==> !Succeeds(old(store.State()), attempts[k])
    ensures !ok ==> |waits| == |attempts| || (|waits| > 0 && attempts[|waits| - 1].stopped)
    ensures store.State() ==
      if ok then
        var reply := attempts[|waits|].reply.value;
        ApplyDelta(old(store.State()), reply.delta, reply.serverTime)
      else old(store.State())
  {
    var backoff := SECOND;
    waits := [];
    var i := 0;
    while i < |attempts|
      invariant 0 <= i <= |attempts| && |waits| == i
      invariant store.Valid() && store.State() == old(store.State())
      invariant backoff == Backoff(i)
      invariant forall k :: 0 <= k < i ==> waits[k] == Backoff(k)
      invariant forall k :: 0 <= k < i ==> !Succeeds(old(store.State()), attempts[k])
    {
      var synced, _ := SyncOnce(store, attempts[i]);
      if synced {
        return true, waits;
      }
      waits := waits + [backoff];
      if attempts[i].stopped {
        return false, waits;
      }
      backoff := backoff * 2;
      if backoff > MAX_BACKOFF {
        backoff := MAX_BACKOFF;
      }
      i := i + 1;
    }
    return false, waits;
  }
}
