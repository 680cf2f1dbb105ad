/** Nap planning: how long a nap lasts, when the player wakes and how much
    stamina it restores. `SleepPatches` inlines this computation twice, once when
    the nap is offered and once when it is carried out; here it is the single
    function `Plan`, and both call sites are shown to use it. */
module NapPlanner {
  import opened DotNet
  import opened Clock

  /** The mod's settings (`ModConfig`). */
  datatype Config = Config(enableNapping: bool, minutesPerStamina: real, maxWakeUpTime: int)

  /** The shipped defaults: napping on, half a minute per stamina point,
      wake no later than 18:00. */
  const DefaultConfig := Config(true, 0.5, 1800)

  /** The ranges the settings menu lets a player choose: 0.1 to 5.0 minutes
      per stamina point, a latest wake time from 07:00 to 24:00 in whole
      hours. */
  predicate SettingsInRange(cfg: Config) {
    0.1 <= cfg.minutesPerStamina <= 5.0 &&
    700 <= cfg.maxWakeUpTime <= 2400 && cfg.maxWakeUpTime % 100 == 0
  }

  /** A computed nap: when the player wakes, how much stamina is restored,
      and whether the wake time was limited by `maxWakeUpTime`. */
  datatype NapPlan = NapPlan(wakeUpTime: int, staminaToRestore: real, capped: bool)

  /** Stamina the player is missing (`MaxStamina - Stamina`). */
  function MissingStamina(maxStamina: int, stamina: real): (missing: real)
    ensures stamina + missing == maxStamina as real
    ensures missing > 0.0 <==> stamina < maxStamina as real
  {
    maxStamina as real - stamina
  }

  /** Nap length in minutes: `missing * mps` rounded up to a whole minute,
      then up to a multiple of ten, and never below ten. The result is the
      smallest multiple of ten that is at least ten and covers the deficit. */
  function NapMinutes(missing: real, mps: real): (n: int)
    ensures n % 10 == 0 && n >= 10
    ensures n as real >= missing * mps
    ensures n == 10 || (n - 10) as real < missing * mps
  {
    var napMinutes := RoundUpToTen(Ceiling(missing * mps));
    if napMinutes < 10 then 10 else napMinutes
  }

  /** The three statements both call sites use for the nap length (ceiling, round up to
      ten, floor of ten) compute `NapMinutes`. */
  lemma NapMinutesSteps(missing: real, mps: real, raw: int, rounded: int, napMinutes: int)
    requires raw == Ceiling(missing * mps) && rounded == RoundUpToTen(raw)
    requires napMinutes == if rounded < 10 then 10 else rounded
    ensures napMinutes == NapMinutes(missing, mps)
    ensures napMinutes % 10 == 0 && napMinutes >= 10
  {
  }

  /** The wake time the nap would reach if nothing limited it. */
  function CandidateWake(now: int, missing: real, mps: real): int {
    AddGameMinutes(now, NapMinutes(missing, mps))
  }

  /** The nap plan both call sites compute. When the candidate wake time is
      past `maxWake`, the player wakes at `maxWake` and is restored only the
      stamina the minutes actually slept pay for; otherwise the player wakes
      at the candidate time and the whole deficit is restored. */
  function Plan(now: int, missing: real, mps: real, maxWake: int): (p: NapPlan)
    requires mps > 0.0
    ensures p.capped <==> CandidateWake(now, missing, mps) > maxWake
    ensures p.wakeUpTime <= maxWake
    ensures p.capped ==> p.wakeUpTime == maxWake &&
                         p.staminaToRestore == GameMinutesBetween(now, maxWake) as real / mps
    ensures !p.capped ==> p.wakeUpTime == CandidateWake(now, missing, mps) &&
                          p.staminaToRestore == missing
  {
    var wakeUpTime := AddGameMinutes(now, NapMinutes(missing, mps));
    if wakeUpTime > maxWake then
      var actualMinutes := GameMinutesBetween(now, maxWake);
      NapPlan(maxWake, actualMinutes as real / mps, true)
    else
      NapPlan(wakeUpTime, missing, false)
  }

  // ---------------------------------------------------------------------
  // Properties of a plan

  /** A plan never restores a negative amount when the deficit is not
      negative. */
  lemma PlanRestoresNonNegative(now: int, missing: real, mps: real, maxWake: int)
    requires mps > 0.0 && missing >= 0.0
    ensures Plan(now, missing, mps, maxWake).staminaToRestore >= 0.0
  {
    var p := Plan(now, missing, mps, maxWake);
    if p.capped {
      DivisionBounds(GameMinutesBetween(now, maxWake) as real, mps, 1.0);
    }
  }

  /** An uncapped nap from a quantised time sleeps exactly `NapMinutes`,
      which pays for the whole deficit at `mps` minutes per point, and ends
      strictly after it starts. */
  lemma UncappedPlanCoversDeficit(now: int, missing: real, mps: real, maxWake: int)
    requires mps > 0.0 && Quantised(now)
    requires !Plan(now, missing, mps, maxWake).capped
    ensures var p := Plan(now, missing, mps, maxWake);
            TotalMinutes(p.wakeUpTime) - TotalMinutes(now) == NapMinutes(missing, mps) &&
            (TotalMinutes(p.wakeUpTime) - TotalMinutes(now)) as real >= missing * mps &&
            Quantised(p.wakeUpTime) && now < p.wakeUpTime
  {
    AddTensAdvances(now, NapMinutes(missing, mps));
  }

  /** With a positive deficit and quantised times, a capped plan restores
      strictly less than the deficit: capping only ever makes the recovery
      partial. */
  lemma CappedPlanIsPartial(now: int, missing: real, mps: real, maxWake: int)
    requires mps > 0.0 && missing > 0.0
    requires Quantised(now) && Quantised(maxWake)
    requires Plan(now, missing, mps, maxWake).capped
    ensures var p := Plan(now, missing, mps, maxWake);
            0.0 <= p.staminaToRestore < missing
  {
    var n := NapMinutes(missing, mps);
    OvershootLeavesLess(now, n, maxWake);
    var slept := GameMinutesBetween(now, maxWake);
    // The nap was cut at least ten minutes short of n, and n - 10 minutes
    // (or none at all, when n is the ten-minute floor) fall short of the
    // deficit's cost.
    var cost := missing * mps;
    PositiveProduct(missing, mps);
    NapMinutesTight(missing, mps);
    assert (slept as real) <= (n - 10) as real;
    DivisionBounds(slept as real, mps, missing);
  }

  /** When the deficit costs some time, ten minutes less than the nap would
      not cover it. */
  lemma NapMinutesTight(missing: real, mps: real)
    requires 0.0 < missing * mps
    ensures (NapMinutes(missing, mps) - 10) as real < missing * mps
  {
    var n := NapMinutes(missing, mps);
    if n != 10 {
      assert (n - 10) as real < missing * mps;
    }
  }

  /** A larger deficit never gives a shorter nap: the nap length is
      monotone in the stamina missing. */
  lemma NapMinutesMonotone(m1: real, m2: real, mps: real)
    requires 0.0 < mps && m1 <= m2
    ensures NapMinutes(m1, mps) <= NapMinutes(m2, mps)
  {
    assert m2 * mps - m1 * mps == (m2 - m1) * mps;
    NonNegativeProduct(m2 - m1, mps);
    CeilingMonotone(m1 * mps, m2 * mps);
    RoundUpToTenMonotone(Ceiling(m1 * mps), Ceiling(m2 * mps));
  }

  /** The product of two non-negative reals is not negative. */
  lemma NonNegativeProduct(a: real, b: real)
    requires 0.0 <= a && 0.0 <= b
    ensures 0.0 <= a * b
  {
  }

  /** The product of two positive reals is positive. */
  lemma PositiveProduct(a: real, b: real)
    requires 0.0 < a && 0.0 < b
    ensures 0.0 < a * b
  {
  }

  /** Dividing a non-negative amount by a positive rate gives a non-negative
      quotient, which is below `x` when the amount is below `x * m`. */
  lemma DivisionBounds(a: real, m: real, x: real)
    requires 0.0 <= a && 0.0 < m
    ensures 0.0 <= a / m
    ensures a < x * m ==> a / m < x
  {
    if a < x * m {
      assert (x * m) / m == x;
    }
  }

  /** The uncapped worked example: at 06:00 with 135 points missing at half
      a minute per point, the nap needs 67.5 -> 68 -> 70 minutes and ends at
      07:10 having restored all 135 points. */
  lemma MorningNapExample()
    ensures Ceiling(135.0 * 0.5) == 68
    ensures NapMinutes(135.0, 0.5) == 70
    ensures Plan(600, 135.0, 0.5, 1800) == NapPlan(710, 135.0, false)
  {
    assert (-(135.0 * 0.5)).Floor == -68;
  }

  /** The late-evening example: at 22:00 with a limit of 18:00 the candidate
      wake time is past the limit, so the plan is capped at 18:00 and, since
      18:00 is already behind, restores nothing. */
  lemma LateEveningExample()
    ensures Plan(2200, 200.0, 0.5, 1800) == NapPlan(1800, 0.0, true)
  {
    assert (-(200.0 * 0.5)).Floor == -100;
    assert NapMinutes(200.0, 0.5) == 100;
    assert AddGameMinutes(2200, 100) == 2340;
  }
}
