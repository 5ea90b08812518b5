/** monitor/reporter.go: the drain loop. */
module Reporter {
  import opened Base
  import opened Checks
  import opened Text
  import opened Timestamp
  import opened Tables
  import opened Stores

  const REPORT_BATCH_SIZE: nat := 500

  /** How one round of the drain goes. A lost reply reached the server; only
      Confirmed is a 2xx the agent saw, followed by a successful MarkSent. */
  datatype Outcome = Confirmed | ListFails | PostRefused | ReplyLost | MarkFails

  /** The outcome of round i; past the script every round is confirmed. */
  function OutcomeAt(script: seq<Outcome>, i: nat): Outcome {
    if i < |script| then script[i] else Confirmed
  }

  function Ids(rows: seq<BufRow>): set<int> {
    set row | row in rows :: row.id
  }

  function Cut(n: nat, size: nat): nat {
    if n < size then n else size
  }

  /** The i-th batch of the backlog. */
  function Batch(backlog: seq<BufRow>, i: nat): seq<BufRow> {
    backlog[Cut(REPORT_BATCH_SIZE * i, |backlog|)..Cut(REPORT_BATCH_SIZE * (i + 1), |backlog|)]
  }

  /** How many posts drain n rows: an empty backlog still costs one, the heartbeat. */
  function Rounds(n: nat): nat {
    if n == 0 then 1 else (n + REPORT_BATCH_SIZE - 1) / REPORT_BATCH_SIZE
  }

  /** The first round that is not confirmed, or `limit` when none before it is. */
  function FirstFault(script: seq<Outcome>, from: nat, limit: nat): (f: nat)
    requires from <= limit
    ensures from <= f <= limit
    ensures forall i :: from <= i < f ==> OutcomeAt(script, i) == Confirmed
    ensures f < limit ==> OutcomeAt(script, f) != Confirmed
    decreases limit - from
  {
    if from == limit || OutcomeAt(script, from) != Confirmed then from
    else FirstFault(script, from + 1, limit)
  }

  // ----- What marking does to the backlog -----

  function Without(rows: seq<BufRow>, ids: set<int>): seq<BufRow> {
    if rows == [] then []
    else
      var front := Without(rows[..|rows| - 1], ids);
      if rows[|rows| - 1].id in ids then front else front + [rows[|rows| - 1]]
  }

  lemma WithoutLast(rows: seq<BufRow>, row: BufRow, ids: set<int>)
    ensures Without(rows + [row], ids) == Without(rows, ids) + if row.id in ids then [] else [row]
  {
    assert (rows + [row])[..|rows|] == rows;
  }

  /** Marking rows sent removes exactly them from the backlog. */
  lemma {:induction false} MarkedBacklog(checks: CheckTable, buffer: seq<BufRow>, ids: set<int>)
    ensures Eligible(checks, MarkSent(buffer, ids)) == Without(Eligible(checks, buffer), ids)
  {
    if buffer != [] {
      var n := |buffer| - 1;
      var marked := MarkSent(buffer, ids);
      MarkedBacklog(checks, buffer[..n], ids);
      assert marked[..n] == MarkSent(buffer[..n], ids);
      assert marked[n] == MarkRow(buffer[n], ids);
      WithoutLast(Eligible(checks, buffer[..n]), buffer[n], ids);
    }
  }

  lemma {:induction false} WithoutAll(rows: seq<BufRow>, ids: set<int>)
    requires forall row :: row in rows ==> row.id in ids
    ensures Without(rows, ids) == []
  {
    if rows != [] {
      WithoutAll(rows[..|rows| - 1], ids);
    }
  }

  lemma IdsBeyondPrefix(rows: seq<BufRow>, last: nat, m: nat, k: nat)
    requires ValidBuffer(rows, last) && m <= k < |rows|
    ensures rows[k].id !in Ids(rows[..m])
  {
    forall row | row in rows[..m] ensures row.id != rows[k].id {
      var j :| 0 <= j < m && rows[j] == row;
    }
  }

  lemma TailIds(rows: seq<BufRow>, last: nat, m: nat)
    requires ValidBuffer(rows, last) && m <= |rows|
    ensures forall row :: row in rows[m..] ==> row.id !in Ids(rows[..m])
  {
    forall row | row in rows[m..] ensures row.id !in Ids(rows[..m]) {
      var k :| m <= k < |rows| && rows[k] == row;
      IdsBeyondPrefix(rows, last, m, k);
    }
  }

  lemma {:induction false} WithoutSplit(a: seq<BufRow>, b: seq<BufRow>, ids: set<int>)
    requires forall row :: row in a ==> row.id in ids
    requires forall row :: row in b ==> row.id !in ids
    ensures Without(a + b, ids) == b
  {
    if b == [] {
      assert a + b == a;
      WithoutAll(a, ids);
    } else {
      var n := |b| - 1;
      WithoutSplit(a, b[..n], ids);
      assert a + b == a + b[..n] + [b[n]];
      WithoutLast(a + b[..n], b[n], ids);
      assert b[n] in b;
    }
  }

  lemma WithoutPrefix(rows: seq<BufRow>, last: nat, m: nat)
    requires ValidBuffer(rows, last) && m <= |rows|
    ensures Without(rows, Ids(rows[..m])) == rows[m..]
  {
    TailIds(rows, last, m);
    assert rows[..m] + rows[m..] == rows;
    WithoutSplit(rows[..m], rows[m..], Ids(rows[..m]));
  }

  /** With the first m rows of the backlog marked, the rest of it remains. */
  lemma BacklogAfter(checks: CheckTable, buffer: seq<BufRow>, last: nat, m: nat)
    requires ValidBuffer(buffer, last) && m <= |Eligible(checks, buffer)|
    ensures
      var backlog := Eligible(checks, buffer);
      Eligible(checks, MarkSent(buffer, Ids(backlog[..m]))) == backlog[m..]
  {
    EligibleSorted(checks, buffer, last);
    MarkedBacklog(checks, buffer, Ids(Eligible(checks, buffer)[..m]));
    WithoutPrefix(Eligible(checks, buffer), last, m);
  }

  lemma MarkMore(buffer: seq<BufRow>, backlog: seq<BufRow>, m: nat, k: nat)
    requires m <= k <= |backlog|
    ensures MarkSent(MarkSent(buffer, Ids(backlog[..m])), Ids(backlog[m..k])) == MarkSent(buffer, Ids(backlog[..k]))
  {
    assert backlog[..k] == backlog[..m] + backlog[m..k];
    assert Ids(backlog[..k]) == Ids(backlog[..m]) + Ids(backlog[m..k]);
  }

  /** What BufferResult writes can be read back. */
  lemma BufferedIsReadable(id: int, checkId: int, r: Result)
    requires MIN_INSTANT <= r.ranAt < MAX_INSTANT
    ensures Readable(NewBufRow(id, checkId, r))
  {
    SecondRoundTrip(r.ranAt);
  }

  lemma {:induction false} FirstFaultIs(script: seq<Outcome>, from: nat, limit: nat, f: nat)
    requires from <= f <= limit
    requires forall i :: from <= i < f ==> OutcomeAt(script, i) == Confirmed
    requires f < limit ==> OutcomeAt(script, f) != Confirmed
    ensures FirstFault(script, from, limit) == f
    decreases limit - from
  {
    if from < f {
      FirstFaultIs(script, from + 1, limit, f);
    }
  }

  /** A backlog that is a positive multiple of the batch size takes one more
      listing to be seen empty. */
  predicate ListsOnceMore(n: nat) {
    n > 0 && n % REPORT_BATCH_SIZE == 0
  }

  ghost function Backlog(db: DB): seq<BufRow> {
    Eligible(db.checks, db.buffer)
  }

  // ----- The state after k rounds -----

  /** The rows the next listing returns. */
  ghost function NextBatch(db: DB): seq<BufRow> {
    Limit(Backlog(db), REPORT_BATCH_SIZE)
  }

  ghost function MarkBatch(db: DB): DB {
    db.(buffer := MarkSent(db.buffer, Ids(NextBatch(db))))
  }

  ghost function DrainTo(before: DB, k: nat): DB {
    if k == 0 then before else MarkBatch(DrainTo(before, k - 1))
  }

  /** Each batch handed over is what was listed after those before it were marked. */
  ghost predicate Posted(before: DB, posts: seq<seq<Listed>>) {
    posts == [] || (Posted(before, posts[..|posts| - 1])
                    && Lists(before.checks, NextBatch(DrainTo(before, |posts| - 1)), posts[|posts| - 1]))
  }

  /** Where batch k starts in a backlog of n rows. */
  function Start(n: nat, k: nat): nat {
    Cut(REPORT_BATCH_SIZE * k, n)
  }

  /** The database with the first k batches of its backlog marked. */
  ghost function MarkedTo(before: DB, k: nat): DB {
    before.(buffer := MarkSent(before.buffer, Ids(Backlog(before)[..Start(|Backlog(before)|, k)])))
  }

  lemma LimitIsBatch(backlog: seq<BufRow>, k: nat)
    ensures Limit(backlog[Start(|backlog|, k)..], REPORT_BATCH_SIZE) == Batch(backlog, k)
  {
  }

  lemma MarkedKeeps(before: DB, k: nat)
    requires Tables.Valid(before)
    ensures Backlog(MarkedTo(before, k)) == Backlog(before)[Start(|Backlog(before)|, k)..]
    ensures Tables.Valid(MarkedTo(before, k))
  {
    var m := Start(|Backlog(before)|, k);
    BacklogAfter(before.checks, before.buffer, before.lastResultId, m);
    ValidMark(before.buffer, before.lastResultId, Ids(Backlog(before)[..m]));
  }

  lemma MarkedNext(before: DB, k: nat)
    requires Tables.Valid(before) && k > 0
    ensures MarkBatch(MarkedTo(before, k - 1)) == MarkedTo(before, k)
  {
    var backlog := Backlog(before);
    MarkedKeeps(before, k - 1);
    LimitIsBatch(backlog, k - 1);
    MarkMore(before.buffer, backlog, Start(|backlog|, k - 1), Start(|backlog|, k));
  }

  lemma MarkedNone(before: DB)
    ensures MarkedTo(before, 0) == before
  {
    assert Ids(Backlog(before)[..0]) == {};
    assert MarkSent(before.buffer, {}) == before.buffer;
  }

  lemma {:induction false} DrainIsMarked(before: DB, k: nat)
    requires Tables.Valid(before)
    ensures DrainTo(before, k) == MarkedTo(before, k)
  {
    if k == 0 {
      MarkedNone(before);
    } else {
      DrainIsMarked(before, k - 1);
      MarkedNext(before, k);
    }
  }

  /** After k rounds exactly the first 500k rows of the backlog are marked, the rest
      of it remains, and the next listing is its next batch. */
  lemma DrainForm(before: DB, k: nat)
    requires Tables.Valid(before)
    ensures DrainTo(before, k) == MarkedTo(before, k)
    ensures Backlog(DrainTo(before, k)) == Backlog(before)[Start(|Backlog(before)|, k)..]
    ensures NextBatch(DrainTo(before, k)) == Batch(Backlog(before), k)
    ensures Tables.Valid(DrainTo(before, k))
  {
    DrainIsMarked(before, k);
    MarkedKeeps(before, k);
    LimitIsBatch(Backlog(before), k);
  }

  lemma LastPosted(before: DB, posts: seq<seq<Listed>>)
    requires Tables.Valid(before) && posts != [] && Posted(before, posts)
    ensures Lists(before.checks, Batch(Backlog(before), |posts| - 1), posts[|posts| - 1])
  {
    DrainForm(before, |posts| - 1);
  }

  /** The batches handed to the server are those of the backlog, in id order. */
  lemma {:induction false} PostedInOrder(before: DB, posts: seq<seq<Listed>>, i: nat)
    requires Tables.Valid(before) && Posted(before, posts) && i < |posts|
    ensures Lists(before.checks, Batch(Backlog(before), i), posts[i])
    decreases |posts|
  {
    if i == |posts| - 1 {
      LastPosted(before, posts);
    } else {
      assert posts[..|posts| - 1][i] == posts[i];
      PostedInOrder(before, posts[..|posts| - 1], i);
    }
  }

  lemma OneMorePost(before: DB, posts: seq<seq<Listed>>, rows: seq<Listed>)
    requires Posted(before, posts) && Lists(before.checks, NextBatch(DrainTo(before, |posts|)), rows)
    ensures Posted(before, posts + [rows])
  {
    assert (posts + [rows])[..|posts|] == posts;
  }

  /** Listing after k batches are marked yields the next one, or fails on a row of it
      whose time does not parse. */
  method ListBatch(store: Store, ghost before: DB, ghost k: nat) returns (ok: bool, rows: seq<Listed>)
    requires Tables.Valid(before) && store.State() == DrainTo(before, k)
    ensures ok <==> AllReadable(NextBatch(DrainTo(before, k)))
    ensures ok ==> Lists(before.checks, NextBatch(DrainTo(before, k)), rows)
    ensures ok ==> |rows| == BatchLen(|Backlog(before)|, k)
  {
    DrainForm(before, k);
    ok, rows := store.ListUnsent(REPORT_BATCH_SIZE);
  }

  /** The ids of a listed batch, to mark it by. */
  method IdsListed(ghost checks: CheckTable, ghost batch: seq<BufRow>, rows: seq<Listed>) returns (ids: seq<int>)
    requires Lists(checks, batch, rows)
    ensures (set id | id in ids) == Ids(batch)
  {
    ids := seq(|rows|, i requires 0 <= i < |rows| => rows[i].id);
    forall i | 0 <= i < |ids| ensures ids[i] in Ids(batch) {
      assert batch[i] in batch;
    }
    forall row | row in batch ensures row.id in ids {
      var i :| 0 <= i < |batch| && batch[i] == row;
      assert ids[i] == row.id;
    }
  }

  /** One post and, when the server confirms it, one MarkSent. */
  method PostAndMark(store: Store, rows: seq<Listed>, outcome: Outcome, ghost before: DB, ghost k: nat)
    returns (ok: bool)
    requires Tables.Valid(before) && store.State() == DrainTo(before, k)
    requires Lists(before.checks, NextBatch(DrainTo(before, k)), rows)
    modifies store
    ensures ok <==> outcome == Confirmed
    ensures ok ==> store.State() == DrainTo(before, k + 1)
    ensures !ok ==> store.State() == old(store.State())
  {
    if outcome != Confirmed {
      return false;
    }
    DrainForm(before, k);
    var ids := IdsListed(before.checks, NextBatch(DrainTo(before, k)), rows);
    store.MarkSent(ids);
    return true;
  }

  // ----- How far a drain goes -----

  /** A listing also fails on a row it cannot read. */
  ghost function EffectiveAt(before: DB, outcome: Outcome, k: nat): Outcome {
    if AllReadable(NextBatch(DrainTo(before, k))) then outcome else ListFails
  }

  /** The outcomes a drain of this database meets. */
  ghost function Effective(before: DB, script: seq<Outcome>): (s: seq<Outcome>)
    ensures |s| == Rounds(|Backlog(before)|) + 1
    ensures forall k :: 0 <= k < |s| ==> s[k] == EffectiveAt(before, OutcomeAt(script, k), k)
  {
    seq(Rounds(|Backlog(before)|) + 1, k requires 0 <= k => EffectiveAt(before, OutcomeAt(script, k), k))
  }

  lemma EffectiveIs(before: DB, script: seq<Outcome>, k: nat)
    requires REPORT_BATCH_SIZE * k <= |Backlog(before)|
    ensures OutcomeAt(Effective(before, script), k) == EffectiveAt(before, OutcomeAt(script, k), k)
  {
  }

  /** How far a drain of n rows goes: as many rounds as the backlog needs, or until
      the first fault; every round posts, but one whose listing fails. */
  predicate RoundsResult(n: nat, script: seq<Outcome>, ok: bool, posts: nat, rounds: nat) {
    var total := Rounds(n);
    && rounds == FirstFault(script, 0, total)
    && (ok <==> rounds == total && !(ListsOnceMore(n) && OutcomeAt(script, total) == ListFails))
    && posts == rounds + (if rounds < total && OutcomeAt(script, rounds) != ListFails then 1 else 0)
  }

  predicate ConfirmedTo(script: seq<Outcome>, rounds: nat) {
    forall i :: 0 <= i < rounds ==> OutcomeAt(script, i) == Confirmed
  }

  lemma OneMoreConfirmed(script: seq<Outcome>, k: nat)
    requires ConfirmedTo(script, k) && OutcomeAt(script, k) == Confirmed
    ensures ConfirmedTo(script, k + 1)
  {
  }

  lemma Stopped(n: nat, script: seq<Outcome>, posts: nat, rounds: nat)
    requires REPORT_BATCH_SIZE * rounds <= n && ConfirmedTo(script, rounds)
    requires OutcomeAt(script, rounds) == ListFails ==> posts == rounds
    requires OutcomeAt(script, rounds) != ListFails ==>
               OutcomeAt(script, rounds) != Confirmed && posts == rounds + 1
               && (rounds == 0 || REPORT_BATCH_SIZE * rounds < n)
    ensures RoundsResult(n, script, false, posts, rounds)
  {
    FirstFaultIs(script, 0, Rounds(n), rounds);
  }

  lemma Finished(n: nat, script: seq<Outcome>, rounds: nat)
    requires ConfirmedTo(script, rounds) && rounds == Rounds(n)
    requires ListsOnceMore(n) ==> OutcomeAt(script, rounds) != ListFails
    ensures RoundsResult(n, script, true, rounds, rounds)
  {
    FirstFaultIs(script, 0, rounds, rounds);
  }

  function BatchLen(n: nat, k: nat): int {
    Cut(REPORT_BATCH_SIZE * (k + 1), n) - Cut(REPORT_BATCH_SIZE * k, n)
  }

  /** A short batch is the last one; an empty one after full ones ends the drain. */
  lemma ShortBatchIsLast(n: nat, k: nat)
    requires REPORT_BATCH_SIZE * k <= n
    ensures BatchLen(n, k) <= REPORT_BATCH_SIZE
    ensures BatchLen(n, k) == REPORT_BATCH_SIZE <==> REPORT_BATCH_SIZE * (k + 1) <= n
    ensures BatchLen(n, k) < REPORT_BATCH_SIZE && (k == 0 || BatchLen(n, k) > 0) ==>
      Rounds(n) == k + 1 && !ListsOnceMore(n)
    ensures BatchLen(n, k) == 0 <==> REPORT_BATCH_SIZE * k == n
    ensures BatchLen(n, k) == 0 && k > 0 ==> Rounds(n) == k
  {
  }

  /** How a round ends: it did not list, found nothing more to send, was not
      confirmed, or was, with a batch that was short or full. */
  datatype End = NoListing | NothingMore | Unconfirmed | Short | Full

  function EndOf(listed: int, first: bool, outcome: Outcome): End {
    if outcome == ListFails then NoListing
    else if listed == 0 && !first then NothingMore
    else if outcome != Confirmed then Unconfirmed
    else if listed < REPORT_BATCH_SIZE then Short
    else Full
  }

  function ConfirmedRounds(k: nat, end: End): nat {
    if end.Short? || end.Full? then k + 1 else k
  }

  predicate Posts(end: End) {
    !end.NoListing? && !end.NothingMore?
  }

  /** One turn of the loop, the one after k batches: list, post, mark. */
  method Round(store: Store, first: bool, outcome: Outcome, ghost before: DB, ghost k: nat)
    returns (end: End, rows: seq<Listed>)
    requires Tables.Valid(before) && store.State() == DrainTo(before, k)
    modifies store
    ensures end == EndOf(BatchLen(|Backlog(before)|, k), first, EffectiveAt(before, outcome, k))
    ensures end.Short? || end.Full? ==> store.State() == DrainTo(before, k + 1)
    ensures !(end.Short? || end.Full?) ==> store.State() == old(store.State())
    ensures Posts(end) ==> Lists(before.checks, NextBatch(DrainTo(before, k)), rows)
  {
    var listed;
    listed, rows := ListBatch(store, before, k);
    if outcome == ListFails || !listed {
      end := NoListing;
    } else {
      if |rows| == 0 && !first {
        end := NothingMore;
      } else {
        var marked := PostAndMark(store, rows, outcome, before, k);
        end := if !marked then Unconfirmed else if |rows| < REPORT_BATCH_SIZE then Short else Full;
      }
    }
  }

  /** What a round's end means for the drain as a whole. */
  lemma RoundEnds(n: nat, script: seq<Outcome>, k: nat, end: End)
    requires ConfirmedTo(script, k) && REPORT_BATCH_SIZE * k <= n
    requires end == EndOf(BatchLen(n, k), k == 0, OutcomeAt(script, k))
    ensures if end.Full? then ConfirmedTo(script, k + 1) && REPORT_BATCH_SIZE * (k + 1) <= n
            else RoundsResult(n, script, end.Short? || end.NothingMore?, if Posts(end) then k + 1 else k,
                              ConfirmedRounds(k, end))
  {
    ShortBatchIsLast(n, k);
    match end
    case NoListing => Stopped(n, script, k, k);
    case NothingMore => Finished(n, script, k);
    case Unconfirmed => Stopped(n, script, k + 1, k);
    case Short => OneMoreConfirmed(script, k); Finished(n, script, k + 1);
    case Full => OneMoreConfirmed(script, k);
  }

  /** reportOnce: drains the backlog in batches until it is empty or a round
      fails. `rounds` counts the confirmed rounds, `posts` the batches handed to
      the server; exactly the confirmed batches are marked sent. */
  method ReportOnce(store: Store, script: seq<Outcome>) returns (ok: bool, posts: seq<seq<Listed>>, rounds: nat)
    requires store.Valid()
    modifies store
    ensures RoundsResult(|Backlog(old(store.State()))|, Effective(old(store.State()), script), ok, |posts|, rounds)
    ensures Posted(old(store.State()), posts)
    ensures store.State() == DrainTo(old(store.State()), rounds)
  {
    ghost var before := store.State();
    ghost var n, faults := |Backlog(before)|, Effective(before, script);
    var end, first := Full, true;
    posts, rounds := [], 0;
    while end == Full
      invariant store.State() == DrainTo(before, rounds) && Posted(before, posts)
      invariant end == Full ==> |posts| == rounds && (first <==> rounds == 0)
      invariant end == Full ==> ConfirmedTo(faults, rounds) && REPORT_BATCH_SIZE * rounds <= n
      invariant end != Full ==> RoundsResult(n, faults, end == Short || end == NothingMore, |posts|, rounds)
      decreases end == Full, n - REPORT_BATCH_SIZE * rounds
    {
      var rows;
      end, rows := Round(store, first, OutcomeAt(script, rounds), before, rounds);
      if Posts(end) {
        OneMorePost(before, posts, rows);
        posts := posts + [rows];
      }
      EffectiveIs(before, script, rounds);
      RoundEnds(n, faults, rounds, end);
      first, rounds := false, ConfirmedRounds(rounds, end);
    }
    ok := end == Short || end == NothingMore;
  }

  lemma NoFaults(before: DB, k: nat)
    requires Tables.Valid(before) && AllReadable(before.buffer)
    ensures EffectiveAt(before, Confirmed, k) == Confirmed
  {
    DrainForm(before, k);
    EligibleIff(before.checks, before.buffer);
    forall row | row in Batch(Backlog(before), k) ensures Readable(row) {
      assert row in Backlog(before);
    }
  }

  /** With no fault and every stored time readable, as BufferResult leaves them, a
      drain takes max(1, ceil(n / 500)) posts and leaves nothing eligible unsent. */
  lemma CleanDrain(before: DB, posts: nat, rounds: nat, ok: bool)
    requires Tables.Valid(before) && AllReadable(before.buffer)
    requires RoundsResult(|Backlog(before)|, Effective(before, []), ok, posts, rounds)
    ensures ok && posts == rounds == Rounds(|Backlog(before)|)
    ensures Backlog(DrainTo(before, rounds)) == []
  {
    var total := Rounds(|Backlog(before)|);
    forall k: nat | k <= total ensures OutcomeAt(Effective(before, []), k) == Confirmed {
      NoFaults(before, k);
    }
    FirstFaultIs(Effective(before, []), 0, total, total);
    DrainForm(before, rounds);
  }

  /** A drain that sends everything there was and still reports an error is one of a
      positive multiple of 500 rows, all confirmed, whose one listing more fails. */
  lemma ErrsWithNothingLeftIff(before: DB, script: seq<Outcome>, ok: bool, posts: nat, rounds: nat)
    requires Tables.Valid(before) && Backlog(before) != []
    requires RoundsResult(|Backlog(before)|, Effective(before, script), ok, posts, rounds)
    ensures
      var n := |Backlog(before)|;
      !ok && Backlog(DrainTo(before, rounds)) == [] <==>
        && n % REPORT_BATCH_SIZE == 0
        && ConfirmedTo(Effective(before, script), Rounds(n)) && OutcomeAt(script, Rounds(n)) == ListFails
  {
    var n := |Backlog(before)|;
    DrainForm(before, rounds);
    DrainForm(before, Rounds(n));
    assert Batch(Backlog(before), Rounds(n)) == [];
    assert OutcomeAt(Effective(before, script), Rounds(n)) == OutcomeAt(script, Rounds(n));
    if rounds < Rounds(n) {
      assert OutcomeAt(Effective(before, script), rounds) != Confirmed;
    }
  }

  /** Five hundred readable rows, sent and marked; then the second listing fails. */
  lemma FiveHundredAndAnError(before: DB, ok: bool, posts: nat, rounds: nat)
    requires Tables.Valid(before) && AllReadable(before.buffer) && |Backlog(before)| == 500
    requires RoundsResult(500, Effective(before, [Confirmed, ListFails]), ok, posts, rounds)
    ensures !ok && posts == rounds == 1 && Backlog(DrainTo(before, rounds)) == []
  {
    var faults := Effective(before, [Confirmed, ListFails]);
    NoFaults(before, 0);
    assert OutcomeAt(faults, 0) == Confirmed;
    FirstFaultIs(faults, 0, 1, 1);
    ErrsWithNothingLeftIff(before, [Confirmed, ListFails], ok, posts, rounds);
  }

  /** The batches, one after another. */
  function Batches(backlog: seq<BufRow>, count: nat): seq<BufRow> {
    if count == 0 then [] else Batches(backlog, count - 1) + Batch(backlog, count - 1)
  }

  /** The first k batches joined are the first 500k rows of the backlog: no gap,
      no repeat; and all of them are the backlog. */
  lemma {:induction false} BatchesJoin(backlog: seq<BufRow>, k: nat)
    ensures Batches(backlog, k) == backlog[..Cut(REPORT_BATCH_SIZE * k, |backlog|)]
    ensures k == Rounds(|backlog|) ==> Batches(backlog, k) == backlog
  {
    if k > 0 {
      BatchesJoin(backlog, k - 1);
    }
  }
}
