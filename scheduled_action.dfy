/** The execute time of the scheduled action command that triggers both cameras
    (`FireScheduledActionCommand`): a PTP timestamp in nanoseconds, latched on the
    Helios camera, pushed `deltaSeconds` seconds into the future. */
module ScheduledAction {
  import opened Types

  /** Nanoseconds per second, the constant 1000000000 of the source. */
  const NsPerSecond: int := 1_000_000_000

  /** The process-wide settings `g_action_delta_time` and `g_round_up_action_time`. */
  datatype ActionConfig = ActionConfig(deltaSeconds: int, roundUp: bool)

  /** The values the program is shipped with: one second ahead, rounded up. */
  const DefaultConfig: ActionConfig := ActionConfig(1, true)

  /** `ns / 1000000000` on `int64_t`: C++ truncates the quotient toward zero,
      which is not Dafny's `/` for negative operands. */
  function SecondsTowardZero(ns: int): (s: int)
    ensures ns >= 0 ==> 0 <= s && s * NsPerSecond <= ns < s * NsPerSecond + NsPerSecond
    ensures ns < 0 ==> s <= 0 && s * NsPerSecond - NsPerSecond < ns <= s * NsPerSecond
  {
    if ns >= 0 then ns / NsPerSecond else -((-ns) / NsPerSecond)
  }

  /** The first whole second strictly after time `x`. */
  function NextWholeSecondAfter(x: int): (m: int)
    ensures m % NsPerSecond == 0
    ensures x < m <= x + NsPerSecond
  {
    (x / NsPerSecond + 1) * NsPerSecond
  }

  /** No whole second lies strictly between `x` and `NextWholeSecondAfter(x)`. */
  lemma NextWholeSecondIsLeast(x: int, m: int)
    requires m % NsPerSecond == 0 && x < m
    ensures NextWholeSecondAfter(x) <= m
  {
    var k := m / NsPerSecond;
    assert m == k * NsPerSecond;
    assert x / NsPerSecond < k;
  }

  /** The rounding-up branch lands exactly on a whole second, so both cameras are
      triggered at the same second boundary however late the timestamp was latched. */
  lemma NextWholeSecondIsUnique(x: int, m: int)
    requires m % NsPerSecond == 0 && x < m <= x + NsPerSecond
    ensures m == NextWholeSecondAfter(x)
  {
    NextWholeSecondIsLeast(x, m);
  }

  /** What the rounding-up branch computes from a latched timestamp `ptp`: the
      truncated whole seconds, plus `delta + 1`, back in nanoseconds. */
  lemma RoundUpBranch(ptp: int, delta: nat)
    ensures var t := (SecondsTowardZero(ptp) + delta + 1) * NsPerSecond;
            t % NsPerSecond == 0 &&
            (ptp >= 0 ==> ptp + delta * NsPerSecond < t <= ptp + (delta + 1) * NsPerSecond) &&
            (ptp < 0 ==> ptp + (delta + 1) * NsPerSecond <= t < ptp + (delta + 2) * NsPerSecond)
  {
    var s := SecondsTowardZero(ptp);
    var t := (s + delta + 1) * NsPerSecond;
    assert t == s * NsPerSecond + (delta + 1) * NsPerSecond;
    MultipleOfSecond(s + delta + 1);
  }

  /** With the shipped settings (one second ahead, rounded up) a non-negative
      latched timestamp is scheduled at the first whole second more than one
      second after it. */
  lemma ShippedScheduleIsNextSecondAfterDelta(ptp: int)
    requires ptp >= 0
    ensures DefaultConfig.roundUp && DefaultConfig.deltaSeconds == 1
    ensures (SecondsTowardZero(ptp) + DefaultConfig.deltaSeconds + 1) * NsPerSecond
            == NextWholeSecondAfter(ptp + NsPerSecond)
  {
    RoundUpBranch(ptp, 1);
    NextWholeSecondIsUnique(ptp + NsPerSecond, (SecondsTowardZero(ptp) + 2) * NsPerSecond);
  }

  lemma MultipleOfSecond(k: int)
    ensures (k * NsPerSecond) % NsPerSecond == 0
  {
  }

  /** Computes the time written to `ActionCommandExecuteTime` from the latched
      timestamp `currPtp`, updating one local variable step by step as the source does. */
  method ScheduleActionTime(currPtp: int, config: ActionConfig) returns (executeTime: int)
    requires IsInt64(currPtp) && IsUint32(config.deltaSeconds)
    ensures !config.roundUp ==> executeTime == currPtp + config.deltaSeconds * NsPerSecond
    ensures config.roundUp ==> executeTime % NsPerSecond == 0
    ensures config.roundUp && currPtp >= 0 ==>
              currPtp + config.deltaSeconds * NsPerSecond < executeTime <= currPtp + (config.deltaSeconds + 1) * NsPerSecond
    ensures config.roundUp && currPtp >= 0 ==>
              executeTime == NextWholeSecondAfter(currPtp + config.deltaSeconds * NsPerSecond)
    ensures config.roundUp && currPtp < 0 ==>
              currPtp + (config.deltaSeconds + 1) * NsPerSecond <= executeTime < currPtp + (config.deltaSeconds + 2) * NsPerSecond
    ensures 0 <= currPtp <= MaxInt64 - (config.deltaSeconds + 1) * NsPerSecond ==> IsInt64(executeTime)
  {
    var curr := currPtp;
    if config.roundUp {
      curr := SecondsTowardZero(curr);
      curr := curr + config.deltaSeconds + 1;
      curr := curr * NsPerSecond;
      RoundUpBranch(currPtp, config.deltaSeconds);
      if currPtp >= 0 {
        NextWholeSecondIsUnique(currPtp + config.deltaSeconds * NsPerSecond, curr);
      }
    } else {
      curr := curr + config.deltaSeconds * NsPerSecond;
    }
    executeTime := curr;
  }
}
