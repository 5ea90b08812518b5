/** monitor/gate.go: the agent's belief about its own connectivity. */
module Gate {
  import opened Base

  /** A completed outage, as reported once connectivity is back. */
  datatype Outage = Outage(endedAt: int, duration: int)

  /** One verdict applied to the gate: what a probe found, and the time read after
      it, before the lock. */
  datatype Verdict = Verdict(reachable: bool, now: int)

  datatype GateState = GateState(online: bool, offlineSince: int, lastOutage: Option<Outage>)

  /** What Verify makes of the gate under its lock. */
  function Observe(g: GateState, v: Verdict): GateState {
    if !v.reachable && g.online then g.(online := false, offlineSince := v.now)
    else if v.reachable && !g.online then
      g.(online := true, lastOutage := Some(Outage(v.now, v.now - g.offlineSince)))
    else g
  }

  /** Whether anything a probe asks would answer. */
  predicate Answers(replaced: Option<bool>, answers: seq<bool>) {
    if replaced.Some? then replaced.value else true in answers
  }

  class ConnectivityGate {
    var online: bool
    var offlineSince: int
    var lastOutage: Option<Outage>

    function State(): GateState
      reads this
    {
      GateState(online, offlineSince, lastOutage)
    }

    constructor ()
      ensures State() == GateState(true, 0, None)
    {
      online, offlineSince, lastOutage := true, 0, None;
    }

    /** Reachable as soon as one target answers; `answers` are what the targets would
        answer, in the order they come in, `replaced` the probe that stands in for
        them when the agent reaches the server through a proxy. Under a context
        already cancelled every dial fails, whatever the targets would say. */
    static method Probe(cancelled: bool, replaced: Option<bool>, answers: seq<bool>) returns (reachable: bool)
      ensures reachable <==> !cancelled && Answers(replaced, answers)
    {
      if cancelled {
        return false;
      }
      if replaced.Some? {
        return replaced.value;
      }
      var i := 0;
      while i < |answers|
        invariant 0 <= i <= |answers| && true !in answers[..i]
      {
        if answers[i] {
          return true;
        }
        i := i + 1;
      }
      return false;
    }

    method Verify(cancelled: bool, replaced: Option<bool>, answers: seq<bool>, now: int) returns (reachable: bool)
      modifies this
      ensures reachable <==> !cancelled && Answers(replaced, answers)
      ensures State() == Observe(old(State()), Verdict(reachable, now))
      ensures online <==> reachable
    {
      reachable := Probe(cancelled, replaced, answers);
      if !reachable && online {
        online, offlineSince := false, now;
      } else if reachable && !online {
        online, lastOutage := true, Some(Outage(now, now - offlineSince));
      }
    }
  }

  /** The gate after a history of verdicts, in the order they took the lock. */
  function After(h: seq<Verdict>): GateState {
    if h == [] then GateState(true, 0, None) else Observe(After(h[..|h| - 1]), h[|h| - 1])
  }

  /** Verdicts i..j-1 are a maximal run of unreachable ones up to j. */
  predicate OfflineRun(h: seq<Verdict>, i: int, j: int) {
    && 0 <= i < j <= |h|
    && (i == 0 || h[i - 1].reachable)
    && forall k :: i <= k < j ==> !h[k].reachable
  }

  /** ... ended by the reachable verdict j. */
  predicate Completed(h: seq<Verdict>, i: int, j: int) {
    j < |h| && OfflineRun(h, i, j) && h[j].reachable
  }

  /** The state, read off the history alone. */
  ghost predicate Explains(h: seq<Verdict>, g: GateState) {
    && (g.online <==> h == [] || h[|h| - 1].reachable)
    && (!g.online ==> exists i :: OfflineRun(h, i, |h|) && g.offlineSince == h[i].now)
    && (g.lastOutage.None? ==> forall i, j :: !Completed(h, i, j))
    && (g.lastOutage.Some? ==>
          exists i, j :: LatestOutage(h, i, j) && g.lastOutage.value == Outage(h[j].now, h[j].now - h[i].now))
  }

  ghost predicate LatestOutage(h: seq<Verdict>, i: int, j: int) {
    Completed(h, i, j) && forall i', j' :: Completed(h, i', j') ==> j' <= j
  }

  lemma CompletedExtend(h: seq<Verdict>, v: Verdict, i: int, j: int)
    ensures Completed(h + [v], i, j) <==> Completed(h, i, j) || (j == |h| && v.reachable && OfflineRun(h, i, |h|))
  {
    var t := h + [v];
    assert forall k :: 0 <= k < |h| ==> t[k] == h[k];
  }

  lemma RunExtend(h: seq<Verdict>, v: Verdict, i: int)
    requires OfflineRun(h, i, |h|) && !v.reachable
    ensures OfflineRun(h + [v], i, |h| + 1)
  {
  }

  lemma KeepOutage(h: seq<Verdict>, v: Verdict, i: int, j: int)
    requires LatestOutage(h, i, j) && !(v.reachable && exists k :: OfflineRun(h, k, |h|))
    ensures LatestOutage(h + [v], i, j)
  {
    forall i', j' ensures Completed(h + [v], i', j') <==> Completed(h, i', j') {
      CompletedExtend(h, v, i', j');
    }
  }

  lemma OnlineHasNoRun(h: seq<Verdict>, i: int)
    requires h == [] || h[|h| - 1].reachable
    ensures !OfflineRun(h, i, |h|)
  {
  }

  /** After any history the gate is online exactly when the last verdict was (or
      there was none), and its last outage is the latest completed run of
      unreachable verdicts, timed from that run's first verdict to its end. */
  lemma {:induction false} GateHistory(h: seq<Verdict>)
    ensures Explains(h, After(h))
  {
    if h != [] {
      var front, v := h[..|h| - 1], h[|h| - 1];
      GateHistory(front);
      assert h == front + [v];
      var g := After(front);
      forall i, j
        ensures Completed(h, i, j) <==>
          Completed(front, i, j) || (j == |front| && v.reachable && OfflineRun(front, i, |front|))
      {
        CompletedExtend(front, v, i, j);
      }
      if g.online {
        forall i ensures !OfflineRun(front, i, |front|) { OnlineHasNoRun(front, i); }
        if !v.reachable {
          assert OfflineRun(h, |front|, |h|);
        }
      } else {
        var s :| OfflineRun(front, s, |front|) && g.offlineSince == front[s].now;
        if v.reachable {
          assert LatestOutage(h, s, |front|);
        } else {
          RunExtend(front, v, s);
        }
      }
      if g.lastOutage.Some? && (g.online || !v.reachable) {
        var i, j :| LatestOutage(front, i, j)
                    && g.lastOutage.value == Outage(front[j].now, front[j].now - front[i].now);
        KeepOutage(front, v, i, j);
      }
    }
  }
}
