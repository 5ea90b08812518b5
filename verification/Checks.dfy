/** The wire types of model/model.go, and the rules the runner applies to a
    check and to one of its results. */
module Checks {
  import opened Base

  /** The columns that say what a check does. The sync path overwrites them
      only when the incoming row carries a URL; an import always does. */
  datatype Content = Content(
    url: Bytes,
    matchString: Bytes,
    matchMode: Bytes,
    postData: Bytes,
    headers: map<Bytes, Bytes>,
    disableRedirects: bool,
    statusCodeOp: Bytes,
    statusCodeValue: int,
    insecureSkipVerify: bool,
    timeoutSec: int,
    maxResponseTimeMs: int,
    certExpiryWarnDays: int,
    invertResult: bool)

  /** The columns that say who runs a check and when: always the server's. */
  datatype Meta = Meta(
    name: Bytes,
    intervalSec: int,
    enabled: bool,
    resultDetailMaxChars: int,
    monitorCount: int,
    monitorRank: int)

  datatype Check = Check(id: int, guid: Bytes, content: Content, meta: Meta, updatedAt: int, deleted: bool)

  /** One execution outcome, before or after inversion. */
  datatype Result = Result(guid: Bytes, ranAt: int, success: bool, httpStatus: int, latencyMs: int,
                           error: Bytes, responseSample: Bytes)

  const MATCH_CONTAINS: Bytes := [99, 111, 110, 116, 97, 105, 110, 115]
  const MIN_INTERVAL_SEC := 10

  /** The reason synthesised for an inverted pass; only its being non-empty matters. */
  const INVERTED_PASS_REASON: Bytes := [105, 110, 118, 101, 114, 116, 101, 100]

  function InvertPassed(c: Content, passed: bool, reason: Bytes): (r: (bool, Bytes)) {
    if !c.invertResult then (passed, reason)
    else if passed then (false, INVERTED_PASS_REASON)
    else (true, reason)
  }

  /** A failed result that never got anything back from its target. */
  predicate IsTransportFailure(r: Result) {
    !r.success && r.httpStatus == 0 && r.responseSample == []
  }

  /** Two copies of a check that would run identically. */
  predicate SameDefinition(a: Check, b: Check) {
    a.(updatedAt := 0) == b.(updatedAt := 0)
  }

  /** Only the update time may differ. */
  lemma SameDefinitionIff(a: Check, b: Check)
    ensures SameDefinition(a, b) <==>
      a.id == b.id && a.guid == b.guid && a.content == b.content && a.meta == b.meta && a.deleted == b.deleted
  {
  }

  predicate DistinctIds(checks: seq<Check>) {
    forall i, j :: 0 <= i < j < |checks| ==> checks[i].id != checks[j].id
  }

  function IdsOf(checks: seq<Check>): set<int> {
    set c | c in checks :: c.id
  }

  /** The defaults as text: the mode a missing match mode stands for, and a reason that
      is there at all. */
  lemma DefaultTexts()
    ensures |MATCH_CONTAINS| == |"contains"|
    ensures forall i :: 0 <= i < |MATCH_CONTAINS| ==> MATCH_CONTAINS[i] == "contains"[i] as int
    ensures INVERTED_PASS_REASON != []
  {
  }
}
