/**
  The delay decision taken when the request body ends: a response is either
  deliberately late (after the deadline) or on time (before the deadline less
  the headroom). The two `Math.random()` draws the handler makes are inputs:
  `roll` chooses the branch against the late fraction and `pick` chooses the
  offset inside the branch.
 */
module DelayPolicy {
  import opened JsMath
  import opened Config

  datatype Decision = Decision(delayMs: int, late: bool)

  /** The latest delay that still counts as on time. */
  function MaxOnTime(cfg: Tuning, tmax: nat): nat {
    Max(0, tmax - cfg.headroomMs)
  }

  /** The configured late spread, or half the deadline but at least 20 ms. */
  function LateSpan(cfg: Tuning, tmax: nat): int {
    cfg.lateSpanMs.GetOr(Max(20, tmax / 2))
  }

  /** The smallest late delay: past the deadline and no shorter than the minimum. */
  function LateBase(cfg: Tuning, tmax: nat): int {
    Max(cfg.minDelayMs, tmax + 1)
  }

  /** How many distinct late delays the draw can produce. */
  function LateWidth(cfg: Tuning, tmax: nat): int {
    Max(1, LateSpan(cfg, tmax))
  }

  /** The branch is late on a roll below the late fraction, or when no on-time delay reaches the minimum. */
  function GoesLate(cfg: Tuning, tmax: nat, roll: Unit): (late: bool)
    ensures late <==> roll < cfg.lateFraction || tmax <= cfg.minDelayMs + cfg.headroomMs
  {
    roll < cfg.lateFraction || !(MaxOnTime(cfg, tmax) > cfg.minDelayMs)
  }

  function Decide(cfg: Tuning, tmax: nat, roll: Unit, pick: Unit): (d: Decision)
    ensures d.late ==> LateBase(cfg, tmax) <= d.delayMs < LateBase(cfg, tmax) + LateWidth(cfg, tmax)
    ensures !d.late ==> cfg.minDelayMs <= d.delayMs <= MaxOnTime(cfg, tmax)
  {
    if GoesLate(cfg, tmax, roll) then
      Decision(LateBase(cfg, tmax) + Scale(pick, LateWidth(cfg, tmax)), true)
    else
      var span := Max(0, MaxOnTime(cfg, tmax) - cfg.minDelayMs);
      Decision(cfg.minDelayMs + Scale(pick, span + 1), false)
  }

  /**
    The independent description of what the policy may answer for a deadline
    and a roll: the branch rule, and the interval each branch draws from.
   */
  ghost predicate Admissible(cfg: Tuning, tmax: nat, roll: Unit, d: Decision) {
    && (d.late <==> roll < cfg.lateFraction || MaxOnTime(cfg, tmax) <= cfg.minDelayMs)
    && (d.late ==> Max(cfg.minDelayMs, tmax + 1) <= d.delayMs <= Max(cfg.minDelayMs, tmax + 1) + Max(1, LateSpan(cfg, tmax)) - 1)
    && (!d.late ==> cfg.minDelayMs <= d.delayMs <= tmax - cfg.headroomMs)
  }

  /** Every decision is admissible. */
  lemma DecideAdmissible(cfg: Tuning, tmax: nat, roll: Unit, pick: Unit)
    ensures Admissible(cfg, tmax, roll, Decide(cfg, tmax, roll, pick))
  {
  }

  /** Every admissible decision is the outcome of some draw, so no delay of the intervals is unreachable. */
  lemma AdmissibleReachable(cfg: Tuning, tmax: nat, roll: Unit, d: Decision)
    requires Admissible(cfg, tmax, roll, d)
    ensures exists pick: Unit :: Decide(cfg, tmax, roll, pick) == d
  {
    if d.late {
      var w := LateWidth(cfg, tmax);
      var k := d.delayMs - LateBase(cfg, tmax);
      ScaleOnto(k, w);
      assert Decide(cfg, tmax, roll, PickFor(k, w)) == d;
    } else {
      var n := Max(0, MaxOnTime(cfg, tmax) - cfg.minDelayMs) + 1;
      var k := d.delayMs - cfg.minDelayMs;
      ScaleOnto(k, n);
      assert Decide(cfg, tmax, roll, PickFor(k, n)) == d;
    }
  }

  /** The decision is flagged late exactly when the decided delay exceeds the deadline. */
  lemma LateIffPastDeadline(cfg: Tuning, tmax: nat, roll: Unit, pick: Unit)
    ensures Decide(cfg, tmax, roll, pick).late <==> Decide(cfg, tmax, roll, pick).delayMs > tmax
  {
  }

  /** A deadline with no on-time room above the minimum always yields a late delay. */
  lemma ForcedLate(cfg: Tuning, tmax: nat, roll: Unit, pick: Unit)
    requires MaxOnTime(cfg, tmax) <= cfg.minDelayMs
    ensures Decide(cfg, tmax, roll, pick).late
    ensures Decide(cfg, tmax, roll, pick).delayMs > tmax
  {
  }

  /** With the default spread, a late delay is at most `max(20, tmax/2) - 1` past its base. */
  lemma DefaultSpread(cfg: Tuning, tmax: nat, roll: Unit, pick: Unit)
    requires cfg.lateSpanMs.None?
    requires Decide(cfg, tmax, roll, pick).late
    ensures Decide(cfg, tmax, roll, pick).delayMs <= Max(cfg.minDelayMs, tmax + 1) + Max(20, tmax / 2) - 1
  {
  }

  /** A one-millisecond deadline under the default knobs is always answered late. */
  lemma TinyDeadlineIsLate(roll: Unit, pick: Unit)
    ensures Decide(Defaults, 1, roll, pick).late
    ensures Decide(Defaults, 1, roll, pick).delayMs >= 120
  {
  }
}
