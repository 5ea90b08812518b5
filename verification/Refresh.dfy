/** One tick of Run in monitor/runner.go: list the enabled checks, then reconcile
    the goroutines with them. */
module Refreshing {
  import opened Base
  import opened Checks
  import opened Tables
  import opened Stores
  import opened Runners

  /** The local ids of the enabled rows. */
  function EnabledIds(checks: CheckTable): set<int> {
    set g | g in checks && checks[g].meta.enabled :: checks[g].id
  }

  /** The goroutine of an enabled row runs the row's own definition. */
  ghost predicate RunsRow(checks: CheckTable, g: Bytes, s: RunnerState)
    requires g in checks
  {
    var id := checks[g].id;
    && id in s.scheduled && s.scheduled[id].loop < |s.loops| && !s.loops[s.scheduled[id].loop].cancelled
    && (var run := s.loops[s.scheduled[id].loop].check;
        run.id == id && run.guid == g && run.content == checks[g].content && run.meta == checks[g].meta && !run.deleted)
  }

  lemma ListedIds(checks: CheckTable, listed: seq<Check>)
    requires forall c :: c in listed <==> IsEnabled(checks, c)
    ensures IdsOf(listed) == EnabledIds(checks)
  {
    forall id | id in EnabledIds(checks) ensures id in IdsOf(listed) {
      var g :| g in checks && checks[g].meta.enabled && checks[g].id == id;
      assert EnabledCheck(checks, g) in listed;
    }
  }

  /** After a tick whose query succeeds, exactly the store's enabled rows have a live
      goroutine, each running that row's definition; after one whose query fails,
      nothing has changed. The store is only read. */
  method Refresh(runner: Runner, store: Store, fails: bool)
    requires runner.Valid() && store.Valid()
    modifies runner
    ensures runner.Valid()
    ensures fails ==> runner.State() == old(runner.State())
    ensures !fails ==>
      && runner.scheduled.Keys == EnabledIds(store.checks)
      && forall g :: g in store.checks && store.checks[g].meta.enabled ==> RunsRow(store.checks, g, runner.State())
  {
    var listing := store.ListEnabledChecks(fails);
    ghost var before := runner.State();
    runner.Reconcile(listing);
    if listing.Some? {
      ListedIds(store.checks, listing.value);
      forall g | g in store.checks && store.checks[g].meta.enabled ensures RunsRow(store.checks, g, runner.State()) {
        var c := EnabledCheck(store.checks, g);
        assert c in listing.value;
        assert EntryFor(before, runner.State(), c);
      }
    }
  }
}
