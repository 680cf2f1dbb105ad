/** The interception of the bed's "Sleep" touch action
    (`PerformTouchAction_Prefix`). It decides, from a snapshot of the world,
    whether the game's own yes/no sleep question runs, or whether the mod
    asks its own three-way question (Nap / go to bed / cancel) instead. */
module SleepGate {
  import opened DotNet
  import opened Clock
  import opened NapPlanner

  /** The parts of the game state the gate reads (`Game1` and the player). */
  datatype WorldSnapshot = WorldSnapshot(
    timeOfDay: int,
    stamina: real,
    maxStamina: int,
    newDay: bool,
    shouldTimePass: bool,
    hasMoved: bool,
    passedOut: bool)

  /** Stamina the player in the snapshot is missing. */
  function Missing(w: WorldSnapshot): real {
    MissingStamina(w.maxStamina, w.stamina)
  }

  /** The game's own preconditions for offering sleep. */
  predicate VanillaPreconditions(w: WorldSnapshot) {
    !w.newDay && w.shouldTimePass && w.hasMoved && !w.passedOut
  }

  /** The day ends at 02:00 the next morning (2600). */
  const DayEnd := 2600

  /** The text of a dialogue line: the nap label (the projected wake time,
      and, for a capped nap, the restored stamina as a percentage of the
      maximum), or a string the game looks up by key. */
  datatype Text =
    | NapFull(time: TimeLabel)
    | NapCapped(time: TimeLabel, percent: int)
    | GameString(key: string)

  /** A dialogue response: its answer key and the text shown for it. */
  datatype Response = Response(key: string, text: Text)

  /** What the gate does: let the game's own handler run, or ask its own
      question under the dialogue key "Sleep", suppressing the game's. */
  datatype GateResult =
    | RunVanilla
    | AskQuestion(question: Text, responses: seq<Response>, dialogKey: string)

  const GoToSleepKey := "Strings\\Locations:FarmHouse_Bed_GoToSleep"
  const NoKey := "Strings\\Lexicon:QuestionDialogue_No"

  /** Percentage of `maxStamina` that `restored` amounts to, rounded with
      .NET's default midpoint rule (to even). */
  function RestoredPercent(restored: real, maxStamina: int): (pct: int)
    requires maxStamina > 0
    ensures -0.5 <= pct as real - restored / maxStamina as real * 100.0 <= 0.5
  {
    RoundHalfEven(restored / maxStamina as real * 100.0)
  }

  /** The label of the Nap response for a plan. */
  function NapLabel(p: NapPlan, maxStamina: int): Text
    requires maxStamina > 0
  {
    if p.capped then NapCapped(FormatGameTime(p.wakeUpTime), RestoredPercent(p.staminaToRestore, maxStamina))
    else NapFull(FormatGameTime(p.wakeUpTime))
  }

  /** The plan the gate computes for a snapshot. */
  function OfferPlan(cfg: Config, w: WorldSnapshot): NapPlan
    requires cfg.minutesPerStamina > 0.0
  {
    Plan(w.timeOfDay, Missing(w), cfg.minutesPerStamina, cfg.maxWakeUpTime)
  }

  /** Whether a nap would meaningfully advance the clock before the day ends. */
  predicate Meaningful(p: NapPlan, now: int) {
    p.wakeUpTime < DayEnd && p.wakeUpTime > now
  }

  /** `PerformTouchAction_Prefix`. An `action` array that is null is
      modelled as the empty sequence; both are let through. */
  function PerformTouchAction(cfg: Config, action: seq<string>, w: WorldSnapshot): (r: GateResult)
    requires cfg.minutesPerStamina > 0.0 && w.maxStamina > 0
    ensures r.AskQuestion? <==>
              cfg.enableNapping && |action| > 0 && action[0] == "Sleep" &&
              VanillaPreconditions(w) && Missing(w) > 0.0 &&
              Meaningful(OfferPlan(cfg, w), w.timeOfDay)
    ensures r.AskQuestion? ==>
              r.dialogKey == "Sleep" && r.question == GameString(GoToSleepKey) &&
              |r.responses| == 3 &&
              r.responses[0] == Response("Nap", NapLabel(OfferPlan(cfg, w), w.maxStamina)) &&
              r.responses[1] == Response("Yes", GameString(GoToSleepKey)) &&
              r.responses[2] == Response("No", GameString(NoKey))
  {
    if !cfg.enableNapping then RunVanilla
    else if |action| == 0 || action[0] != "Sleep" then RunVanilla
    else if w.newDay || !w.shouldTimePass || !w.hasMoved || w.passedOut then RunVanilla
    else
      var missing := Missing(w);
      if missing <= 0.0 then RunVanilla
      else
        // `PerformTouchAction_Prefix`'s inlined plan statements, equal to `Plan`
        var raw := Ceiling(missing * cfg.minutesPerStamina);
        var napMinutes := RoundUpToTen(raw);
        var napMinutes' := if napMinutes < 10 then 10 else napMinutes;
        NapMinutesSteps(missing, cfg.minutesPerStamina, raw, napMinutes, napMinutes');
        var candidate := AddGameMinutes(w.timeOfDay, napMinutes');
        assert candidate == CandidateWake(w.timeOfDay, missing, cfg.minutesPerStamina);
        var plan :=
          if candidate > cfg.maxWakeUpTime then
            var actualMinutes := GameMinutesBetween(w.timeOfDay, cfg.maxWakeUpTime);
            NapPlan(cfg.maxWakeUpTime, actualMinutes as real / cfg.minutesPerStamina, true)
          else NapPlan(candidate, missing, false);
        assert plan == Plan(w.timeOfDay, missing, cfg.minutesPerStamina, cfg.maxWakeUpTime);
        if plan.wakeUpTime >= DayEnd || plan.wakeUpTime <= w.timeOfDay then RunVanilla
        else
          var responses := [
            Response("Nap", NapLabel(plan, w.maxStamina)),
            Response("Yes", GameString(GoToSleepKey)),
            Response("No", GameString(NoKey))
          ];
          AskQuestion(GameString(GoToSleepKey), responses, "Sleep")
  }

  // ---------------------------------------------------------------------
  // Properties of the gate

  /** With nothing missing, the game's own question always runs. */
  lemma RestedPlayerGetsVanilla(cfg: Config, action: seq<string>, w: WorldSnapshot)
    requires cfg.minutesPerStamina > 0.0 && w.maxStamina > 0
    requires w.stamina >= w.maxStamina as real
    ensures PerformTouchAction(cfg, action, w) == RunVanilla
  {
  }

  /** The late-evening case: at 22:00 with the default limit of 18:00 the
      plan wakes at 18:00, which is not after now, so no nap is offered even
      with 200 points missing. */
  lemma LateEveningIsSuppressed(action: seq<string>, w: WorldSnapshot)
    requires w.timeOfDay == 2200 && w.maxStamina == 270 && w.stamina == 70.0
    ensures PerformTouchAction(DefaultConfig, action, w) == RunVanilla
  {
    LateEveningExample();
  }

  /** From a quantised time at or past a quantised latest wake time, no nap
      is ever offered: the plan cannot wake after now. */
  lemma LateStartIsSuppressed(cfg: Config, action: seq<string>, w: WorldSnapshot)
    requires cfg.minutesPerStamina > 0.0 && w.maxStamina > 0
    requires Quantised(w.timeOfDay) && Quantised(cfg.maxWakeUpTime)
    requires cfg.maxWakeUpTime <= w.timeOfDay
    ensures PerformTouchAction(cfg, action, w) == RunVanilla
  {
    if PerformTouchAction(cfg, action, w).AskQuestion? {
      OfferedNapIsSound(cfg, action, w);
    }
  }

  /** An offered nap from a quantised time under quantised settings wakes at
      a quantised time strictly after now, no later than the limit and before
      the day ends; an uncapped one pays for the whole deficit, and a capped
      one restores strictly less than it. */
  lemma OfferedNapIsSound(cfg: Config, action: seq<string>, w: WorldSnapshot)
    requires cfg.minutesPerStamina > 0.0 && w.maxStamina > 0
    requires Quantised(w.timeOfDay) && Quantised(cfg.maxWakeUpTime)
    requires PerformTouchAction(cfg, action, w).AskQuestion?
    ensures var p := OfferPlan(cfg, w);
            Quantised(p.wakeUpTime) &&
            w.timeOfDay < p.wakeUpTime <= cfg.maxWakeUpTime && p.wakeUpTime < DayEnd &&
            (!p.capped ==> p.staminaToRestore == Missing(w)) &&
            (p.capped ==> 0.0 <= p.staminaToRestore < Missing(w))
  {
    var p := OfferPlan(cfg, w);
    if p.capped {
      CappedPlanIsPartial(w.timeOfDay, Missing(w), cfg.minutesPerStamina, cfg.maxWakeUpTime);
    } else {
      UncappedPlanCoversDeficit(w.timeOfDay, Missing(w), cfg.minutesPerStamina, cfg.maxWakeUpTime);
    }
  }

  /** For a capped offer to a player whose stamina is not negative, the
      percentage shown lies between 0 and 100. */
  lemma CappedPercentInRange(cfg: Config, action: seq<string>, w: WorldSnapshot)
    requires cfg.minutesPerStamina > 0.0 && w.maxStamina > 0 && w.stamina >= 0.0
    requires Quantised(w.timeOfDay) && Quantised(cfg.maxWakeUpTime)
    requires PerformTouchAction(cfg, action, w).AskQuestion? && OfferPlan(cfg, w).capped
    ensures 0 <= RestoredPercent(OfferPlan(cfg, w).staminaToRestore, w.maxStamina) <= 100
  {
    OfferedNapIsSound(cfg, action, w);
    var x := OfferPlan(cfg, w).staminaToRestore;
    var m := w.maxStamina as real;
    assert 0.0 <= x < m;
    PercentBounds(x, m);
  }

  /** Restoring more never shows a smaller percentage. */
  lemma RestoredPercentMonotone(a: real, b: real, maxStamina: int)
    requires maxStamina > 0 && a <= b
    ensures RestoredPercent(a, maxStamina) <= RestoredPercent(b, maxStamina)
  {
    var m := maxStamina as real;
    assert b / m - a / m == (b - a) / m;
    assert a / m * 100.0 <= b / m * 100.0;
    RoundHalfEvenMonotone(a / m * 100.0, b / m * 100.0);
  }

  /** A share of `m` below `m` is at most 100 percent and not negative. */
  lemma PercentBounds(x: real, m: real)
    requires 0.0 <= x < m
    ensures 0.0 <= x / m * 100.0 <= 100.0
  {
    var q := x / m;
    assert q * m == x;
    if q > 1.0 {
      assert q * m > m;
    }
  }

  /** The displayed percentage rounds to even at a midpoint: 12.5 shows as
      12 and 13.5 as 14; 34 of 270 points (12.59...) shows as 13. */
  lemma PercentRounding()
    ensures RestoredPercent(25.0, 200) == 12
    ensures RestoredPercent(27.0, 200) == 14
    ensures RestoredPercent(34.0, 270) == 13
  {
    assert 25.0 / 200.0 * 100.0 == 12.5;
    assert 27.0 / 200.0 * 100.0 == 13.5;
    assert 12.0 <= 34.0 / 270.0 * 100.0 < 13.0;
    assert (34.0 / 270.0 * 100.0).Floor == 12;
  }
}
