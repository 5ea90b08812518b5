/** monitor/schedule.go: the epoch-anchored round-robin grid. Every monitor
    computes its own phase; no monitor talks to another. An instant is a count
    of nanoseconds since the Unix epoch. */
module Schedule {
  import opened Base
  import opened Checks
  import Fnv

  /** The remainder with the sign of the divisor, from Go's truncated %. */
  function Mod64(a: int, n: int): (m: int)
    requires n > 0
    ensures m == a % n
  {
    TruncModEuclid(a, n);
    var m := TruncMod(a, n);
    if m < 0 then m + n else m
  }

  function EffectiveIntervalSeconds(c: Check): int {
    var n := if c.meta.monitorCount < 1 then 1 else c.meta.monitorCount;
    Wrap64(c.meta.intervalSec * n)
  }

  function CheckPhaseSeconds(c: Check, eff: int): int {
    if eff <= 0 then 0
    else
      var rankOffset := Wrap64(c.meta.monitorRank * c.meta.intervalSec);
      var hashOffset := TruncMod(Fnv.Sum32(c.guid), eff);
      Mod64(Wrap64(rankOffset + hashOffset), eff)
  }

  /** time.Time.Unix: the whole seconds of an instant. */
  function UnixSec(t: int): int {
    t / SECOND
  }

  function NextSlotAfter(now: int, phase: int, eff: int): int {
    if eff <= 0 then now
    else
      var rem := Mod64(Wrap64(UnixSec(now) - phase), eff);
      if rem == 0 then now else Wrap64(UnixSec(now) + (eff - rem)) * SECOND
  }

  /** The increment scheduleLoop adds to `next`, in nanoseconds. */
  function StepNanos(eff: int): (step: int)
    ensures step > 0
  {
    var step := Wrap64(eff * SECOND);
    if step <= 0 then SECOND else step
  }

  // ----- The fleet of monitors sharing one check -----

  function AtRank(c: Check, rank: int): Check {
    c.(meta := c.meta.(monitorRank := rank))
  }

  /** How many monitors share the check: none or fewer, as an older server or an
      unsynced row says, counts as this one alone. */
  function Monitors(c: Check): int {
    if c.meta.monitorCount < 1 then 1 else c.meta.monitorCount
  }

  /** What int64 can hold without any intermediate of the phase wrapping. */
  predicate PhaseFits(c: Check) {
    c.meta.intervalSec > 0 && (2 * Monitors(c) - 1) * c.meta.intervalSec < TWO_63
  }

  /** The monitor of this rank has a slot in second `sec`. */
  predicate Owns(c: Check, rank: int, sec: int)
    requires PhaseFits(c)
  {
    EffectiveFits(c);
    var eff := EffectiveIntervalSeconds(c);
    OnGrid(sec, CheckPhaseSeconds(AtRank(c, rank), eff), eff)
  }

  /** The seconds in which somebody runs the check. */
  predicate IsSlot(c: Check, sec: int)
    requires PhaseFits(c)
  {
    sec % c.meta.intervalSec == Fnv.Sum32(c.guid) % c.meta.intervalSec
  }

  /** Whose turn a slot second is, computed without looking at any monitor. */
  function OwnerRank(c: Check, sec: int): int
    requires PhaseFits(c)
  {
    ((sec - Offset(c)) / c.meta.intervalSec) % Monitors(c)
  }

  lemma MulOrder(a: int, b: int, k: int)
    requires a <= b && k >= 0
    ensures a * k <= b * k
  {
  }

  lemma EffectiveFits(c: Check)
    requires PhaseFits(c)
    ensures EffectiveIntervalSeconds(c) == c.meta.intervalSec * Monitors(c) > 0
  {
    var i, n := c.meta.intervalSec, Monitors(c);
    MulOrder(1, n, i);
    MulOrder(n, 2 * n - 1, i);
  }

  /** With room in int64, the phase is the exact sum of rank spacing and hash
      rotation reduced to the effective interval. */
  lemma PhaseExact(c: Check, rank: int)
    requires PhaseFits(c) && 0 <= rank < Monitors(c)
    ensures EffectiveIntervalSeconds(c) > 0
    ensures
      var eff := EffectiveIntervalSeconds(c);
      CheckPhaseSeconds(AtRank(c, rank), eff) == (rank * c.meta.intervalSec + Fnv.Sum32(c.guid) % eff) % eff
  {
    EffectiveFits(c);
    var i, n := c.meta.intervalSec, Monitors(c);
    MulOrder(0, rank, i);
    MulOrder(rank, n - 1, i);
    assert (n - 1) * i + n * i == (2 * n - 1) * i;
  }

  /** The hash rotation, as every monitor computes it. */
  function Offset(c: Check): int
    requires PhaseFits(c)
  {
    EffectiveFits(c);
    Fnv.Sum32(c.guid) % (c.meta.intervalSec * Monitors(c))
  }

  /** A second on a rank's grid is a multiple of the interval away from the hash
      offset, at a distance congruent to the rank. */
  lemma OwnsIff(c: Check, rank: int, sec: int)
    requires PhaseFits(c) && 0 <= rank < Monitors(c)
    ensures Owns(c, rank, sec) <==> OnGrid(sec, Offset(c), c.meta.intervalSec) && OwnerRank(c, sec) == rank
  {
    EffectiveFits(c);
    PhaseExact(c, rank);
    OnGridReduce(sec, rank * c.meta.intervalSec + Offset(c), EffectiveIntervalSeconds(c));
    GridSplit(sec, Offset(c), c.meta.intervalSec, Monitors(c), rank, EffectiveIntervalSeconds(c));
  }

  /** The hash offset is congruent to the hash itself at interval granularity. */
  lemma SlotIff(c: Check, sec: int)
    requires PhaseFits(c)
    ensures IsSlot(c, sec) <==> OnGrid(sec, Offset(c), c.meta.intervalSec)
  {
    EffectiveFits(c);
    OffsetCongruent(Fnv.Sum32(c.guid), c.meta.intervalSec, Monitors(c), EffectiveIntervalSeconds(c));
    CongruentIff(sec, Offset(c), c.meta.intervalSec);
  }

  lemma OffsetCongruent(h: int, i: int, n: int, e: int)
    requires i > 0 && n > 0 && e == i * n && e > 0
    ensures (h % e) % i == h % i
  {
    var k := h / e;
    Distribute(k, n, 0, i);
    ModShift(h % e, k * n, i);
  }

  /** The uncoordinated grids partition time: a rank owns a second exactly when
      the second is a slot of the check and it is that rank's turn. */
  lemma FleetPartition(c: Check, rank: int, sec: int)
    requires PhaseFits(c) && 0 <= rank < Monitors(c)
    ensures Owns(c, rank, sec) <==> IsSlot(c, sec) && rank == OwnerRank(c, sec)
  {
    OwnsIff(c, rank, sec);
    SlotIff(c, sec);
  }

  /** Every slot second has exactly one owner among ranks 0..n-1, and no other
      second has any. */
  lemma ExactlyOneOwner(c: Check, sec: int)
    requires PhaseFits(c)
    ensures IsSlot(c, sec) ==> 0 <= OwnerRank(c, sec) < Monitors(c) && Owns(c, OwnerRank(c, sec), sec)
    ensures forall rank :: 0 <= rank < Monitors(c) && Owns(c, rank, sec) ==>
              IsSlot(c, sec) && rank == OwnerRank(c, sec)
  {
    forall rank | 0 <= rank < Monitors(c)
      ensures Owns(c, rank, sec) <==> IsSlot(c, sec) && rank == OwnerRank(c, sec)
    {
      FleetPartition(c, rank, sec);
    }
  }

  lemma NextQuotient(d: int, i: int, n: int)
    requires i > 0 && n > 0
    ensures ((d + i) / i) % n == ((d / i) % n + 1) % n
  {
    var q := d / i;
    assert d + i == (q + 1) * i + d % i;
    DivModUnique(d + i, i, q + 1, d % i);
    ModShift(q % n + 1, q / n, n);
    assert q + 1 == q % n + 1 + (q / n) * n;
  }

  /** One interval later it is the next rank's turn. */
  lemma OwnersRotate(c: Check, sec: int)
    requires PhaseFits(c) && IsSlot(c, sec)
    ensures IsSlot(c, sec + c.meta.intervalSec)
    ensures OwnerRank(c, sec + c.meta.intervalSec) == (OwnerRank(c, sec) + 1) % Monitors(c)
  {
    ModShift(sec, 1, c.meta.intervalSec);
    NextQuotient(sec - Offset(c), c.meta.intervalSec, Monitors(c));
  }

  /** Any window of one interval contains exactly one slot, and any window of
      one effective interval contains exactly one slot of each monitor. */
  lemma WindowCoverage(c: Check, start: int, rank: int) returns (slot: int, own: int)
    requires PhaseFits(c) && 0 <= rank < Monitors(c)
    ensures start <= slot < start + c.meta.intervalSec && IsSlot(c, slot)
    ensures forall s :: start <= s < start + c.meta.intervalSec && IsSlot(c, s) ==> s == slot
    ensures start <= own < start + c.meta.intervalSec * Monitors(c) && Owns(c, rank, own)
    ensures forall s :: start <= s < start + c.meta.intervalSec * Monitors(c) && Owns(c, rank, s) ==> s == own
  {
    EffectiveFits(c);
    slot := OnePointInWindow(start, Offset(c), c.meta.intervalSec);
    forall s ensures IsSlot(c, s) <==> OnGrid(s, Offset(c), c.meta.intervalSec) {
      SlotIff(c, s);
    }
    var eff := EffectiveIntervalSeconds(c);
    own := OnePointInWindow(start, CheckPhaseSeconds(AtRank(c, rank), eff), eff);
  }

  /** A lone monitor - a count of 1, 0 or below - runs every interval itself. */
  lemma LoneMonitor(c: Check)
    requires c.meta.monitorCount <= 1 && FitsInt64(c.meta.intervalSec)
    ensures EffectiveIntervalSeconds(c) == c.meta.intervalSec
  {
    assert c.meta.intervalSec * 1 == c.meta.intervalSec;
  }

  // ----- The first slot of a (re)started loop -----

  /** The first target is not before now, lies in a slot second, and no earlier
      second from now on is one. */
  lemma NextSlotIsLeast(now: int, phase: int, eff: int)
    requires 0 <= phase < eff
    requires FitsInt64(UnixSec(now) - phase) && FitsInt64(UnixSec(now) + eff)
    ensures now <= NextSlotAfter(now, phase, eff)
    ensures OnGrid(UnixSec(NextSlotAfter(now, phase, eff)), phase, eff)
    ensures forall s :: UnixSec(now) <= s < UnixSec(NextSlotAfter(now, phase, eff)) ==> !OnGrid(s, phase, eff)
    ensures
      var next := NextSlotAfter(now, phase, eff);
      next == now || next == UnixSec(next) * SECOND
  {
    var sec := UnixSec(now);
    var rem := (sec - phase) % eff;
    if rem == 0 {
      assert NextSlotAfter(now, phase, eff) == now;
    } else {
      var slot := sec + (eff - rem);
      var q := (sec - phase) / eff;
      assert (q + 1) * eff == q * eff + eff;
      OnGridIntro(slot, phase, eff, q + 1);
      assert NextSlotAfter(now, phase, eff) == slot * SECOND;
      forall s | sec <= s < slot ensures !OnGrid(s, phase, eff) {
        if OnGrid(s, phase, eff) {
          OnGridClose(s, slot, phase, eff);
        }
      }
    }
  }

  /** A check with no positive interval has no grid: it fires at once, and then every
      second. */
  lemma WithoutGrid(c: Check, now: int, eff: int)
    requires -9_223_372_036 <= eff <= 0
    ensures CheckPhaseSeconds(c, eff) == 0 && NextSlotAfter(now, CheckPhaseSeconds(c, eff), eff) == now
    ensures StepNanos(eff) == 1_000_000_000
  {
  }

  // ----- Tight bounds -----

  lemma WithinForm(i: int, n: int, rank: int)
    requires 1 <= i <= 86400 && 1 <= n <= 106751 && 0 <= rank < n
    ensures 0 < i * n <= 86400 * 106751 && 0 <= rank * i < i * n
    ensures (2 * n - 1) * i == 2 * (i * n) - i
  {
    MulOrder(1, n, i);
    MulOrder(n, 106751, i);
    MulOrder(0, rank, i);
    MulOrder(rank, n - 1, i);
    assert (n - 1) * i == n * i - i;
  }

  /** Within the form's interval bounds, 106751 monitors are the most for which
      no product or sum of the schedule leaves int64. */
  lemma NoOverflow(c: Check, rank: int)
    requires 1 <= c.meta.intervalSec <= 86400 && c.meta.monitorCount <= 106751
    requires 0 <= rank < Monitors(c)
    ensures PhaseFits(c)
    ensures FitsInt64(c.meta.intervalSec * Monitors(c))
    ensures FitsInt64(rank * c.meta.intervalSec)
    ensures
      var eff := EffectiveIntervalSeconds(c);
      eff > 0 && FitsInt64(rank * c.meta.intervalSec + TruncMod(Fnv.Sum32(c.guid), eff))
    ensures
      var eff := EffectiveIntervalSeconds(c);
      FitsInt64(eff * SECOND) && StepNanos(eff) == eff * SECOND
  {
    WithinForm(c.meta.intervalSec, Monitors(c), rank);
    EffectiveFits(c);
    TruncModEuclid(Fnv.Sum32(c.guid), EffectiveIntervalSeconds(c));
  }

  /** The nanosecond step is the effective interval exactly up to 9223372036 s. */
  lemma StepExactIff(eff: int)
    requires 0 < eff < TWO_63
    ensures StepNanos(eff) == eff * SECOND <==> eff <= 9_223_372_036
  {
  }

  /** One monitor more, at the longest interval, and the step wraps: the loop
      would then advance by one second. */
  lemma OneMoreOverflows(c: Check)
    requires c.meta.intervalSec == 86400 && c.meta.monitorCount == 106752
    ensures !FitsInt64(EffectiveIntervalSeconds(c) * SECOND)
    ensures StepNanos(EffectiveIntervalSeconds(c)) == SECOND
  {
  }
}
