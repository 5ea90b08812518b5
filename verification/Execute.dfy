/** execute in monitor/runner.go: one run of one check, from the gate to the
    flush signal, as a single goroutine goes through it. */
module Execution {
  import opened Base
  import opened Checks
  import opened Timestamp
  import opened Tables
  import opened Stores
  import opened Gate
  import opened Runners
  import Utf8

  /** What is buffered of a raw result: inverted if the check says so, its text
      capped. */
  function Cooked(c: Check, raw: Result): Result {
    var (passed, reason) := InvertPassed(c.content, raw.success, raw.error);
    raw.(success := passed,
         error := Utf8.Truncated(reason, c.meta.resultDetailMaxChars),
         responseSample := Utf8.Truncated(raw.responseSample, c.meta.resultDetailMaxChars))
  }

  datatype Outcome = Skipped | Stopped | Discarded | NotBuffered | Kept

  /** What the world does to one run: whether a slot of the semaphore comes before
      the context ends, what the checker returns, whether the context is cancelled
      by the time of a probe and what that would find, and which statements of
      BufferResult fail. */
  datatype World = World(acquires: bool, raw: Result, cancelled: bool, probeReplaced: Option<bool>, answers: seq<bool>,
                         now: int, lookupFails: bool, insertFails: bool)

  predicate Reachable(w: World) {
    !w.cancelled && Answers(w.probeReplaced, w.answers)
  }

  /** Runs one check. `flush` is whether the flush channel holds a token; None when
      it is not wired. A nil gate never skips and never discards. */
  method Execute(runner: Runner, store: Store, gate: ConnectivityGate?, check: Check, w: World, flush: Option<bool>)
    returns (outcome: Outcome, flush': Option<bool>)
    requires store.Valid() && MIN_INSTANT <= w.raw.ranAt < MAX_INSTANT
    modifies runner`lastStatus, store, gate
    ensures store.Valid()
    ensures outcome == Skipped <==> gate != null && !old(gate.online)
    ensures outcome == Stopped <==> outcome != Skipped && !w.acquires
    ensures outcome == Discarded <==>
      && outcome != Skipped && w.acquires && gate != null
      && !w.raw.success && w.raw.httpStatus == 0 && w.raw.responseSample == []
      && (w.cancelled || !Answers(w.probeReplaced, w.answers))
    ensures outcome == NotBuffered <==>
      && !(outcome in {Skipped, Stopped, Discarded})
      && (w.raw.guid !in old(store.checks) || w.lookupFails || w.insertFails)
    ensures
      var silent := !w.raw.success && w.raw.httpStatus == 0 && w.raw.responseSample == [];
      var probed := !(outcome in {Skipped, Stopped}) && silent;
      gate != null ==>
        gate.State() == if probed then Observe(old(gate.State()), Verdict(Reachable(w), w.now)) else old(gate.State())
    ensures outcome != Kept ==>
      store.State() == old(store.State()) && runner.lastStatus == old(runner.lastStatus) && flush' == flush
    ensures outcome == Kept ==>
      && Buffered(old(store.State()), Cooked(check, w.raw)) == Some(store.State())
      && runner.lastStatus == old(runner.lastStatus)[check.id := Cooked(check, w.raw).success]
      && flush' == (if flush.Some? && (check.id !in old(runner.lastStatus)
                                      || old(runner.lastStatus)[check.id] != Cooked(check, w.raw).success)
                   then Some(true) else flush)
  {
    flush' := flush;
    if gate != null && !gate.online {
      return Skipped, flush;
    }
    if !w.acquires {
      return Stopped, flush;
    }
    if gate != null && IsTransportFailure(w.raw) {
      var reachable := gate.Verify(w.cancelled, w.probeReplaced, w.answers, w.now);
      if !reachable {
        return Discarded, flush;
      }
    }
    var buffered := Cooked(check, w.raw);
    var ok := store.BufferResult(buffered, w.lookupFails, w.insertFails);
    if !ok {
      return NotBuffered, flush;
    }
    var changed := runner.CheckStatusTransition(check.id, buffered.success);
    if changed && flush.Some? {
      flush' := Some(true);
    }
    return Kept, flush';
  }

  /** The buffered verdict is the raw one, flipped exactly for an inverted check;
      whether a failure was ambiguous is decided on the raw result alone. */
  lemma CookedVerdict(c: Check, raw: Result)
    ensures Cooked(c, raw).success <==> (raw.success != c.content.invertResult)
    ensures Cooked(c, raw).guid == raw.guid && Cooked(c, raw).ranAt == raw.ranAt
    ensures Cooked(c, raw).httpStatus == raw.httpStatus && Cooked(c, raw).latencyMs == raw.latencyMs
    ensures Cooked(c, raw).responseSample == Utf8.Truncated(raw.responseSample, c.meta.resultDetailMaxChars)
    ensures !(c.content.invertResult && raw.success) ==>
      Cooked(c, raw).error == Utf8.Truncated(raw.error, c.meta.resultDetailMaxChars)
    ensures c.content.invertResult && raw.success ==>
      INVERTED_PASS_REASON != []
      && Cooked(c, raw).error == Utf8.Truncated(INVERTED_PASS_REASON, c.meta.resultDetailMaxChars)
    ensures Utf8.Valid(Cooked(c, raw).error) && Utf8.Valid(Cooked(c, raw).responseSample)
    ensures c.meta.resultDetailMaxChars >= 0 ==>
      && Utf8.RuneCount(Cooked(c, raw).error) <= c.meta.resultDetailMaxChars
      && Utf8.RuneCount(Cooked(c, raw).responseSample) <= c.meta.resultDetailMaxChars
  {
    var n := c.meta.resultDetailMaxChars;
    var reason := InvertPassed(c.content, raw.success, raw.error).1;
    if n >= 0 {
      Utf8.TruncationSound(reason, n);
      Utf8.TruncationSound(raw.responseSample, n);
    } else {
      Utf8.SanitizeIsValid(reason, false);
      Utf8.SanitizeIsValid(raw.responseSample, false);
    }
  }
}
