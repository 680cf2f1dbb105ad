/** Carrying out a chosen nap (`AnswerDialogueAction_Prefix`, `DoNap` and
    the fade-to-black completion delegate). A nap is a two-phase operation:
    `DoNap` sets the napping flag, recomputes the plan and schedules the
    fade; the host later runs the fade's completion exactly once, which is
    the only place the clock and stamina change. While the flag is set, a
    further "Nap" answer is dropped. */
module NapExecutor {
  import opened DotNet
  import opened Clock
  import opened NapPlanner
  import opened SleepGate

  datatype Option<T> = None | Some(value: T)

  /** What the completion delegate captures: the time to wake at and the
      stamina to add. */
  datatype NapTarget = NapTarget(targetTime: int, targetStamina: real)

  /** The last ten-minute tick before the day ends. */
  const LastTick := 2590

  /** The answer key of the Nap response to the "Sleep" question. */
  const NapAnswer := "Sleep_Nap"

  /** The target `DoNap` computes: the plan, with a wake time at or past
      the end of the day pulled back to 25:50. */
  function ExecutionTarget(cfg: Config, now: int, missing: real): (t: NapTarget)
    requires cfg.minutesPerStamina > 0.0
    ensures t.targetTime < DayEnd
    ensures var p := Plan(now, missing, cfg.minutesPerStamina, cfg.maxWakeUpTime);
            t.targetStamina == p.staminaToRestore &&
            (p.wakeUpTime < DayEnd ==> t.targetTime == p.wakeUpTime) &&
            (p.wakeUpTime >= DayEnd ==> t.targetTime == LastTick)
  {
    var plan := Plan(now, missing, cfg.minutesPerStamina, cfg.maxWakeUpTime);
    var wakeUpTime := if plan.wakeUpTime >= DayEnd then LastTick else plan.wakeUpTime;
    NapTarget(wakeUpTime, plan.staminaToRestore)
  }

  /** Stamina after waking: the restored amount added, but never above the
      maximum. */
  function StaminaAfterNap(stamina: real, restore: real, maxStamina: int): (s: real)
    ensures s <= maxStamina as real
    ensures s <= stamina + restore
    ensures s == stamina + restore || s == maxStamina as real
  {
    MinReal(stamina + restore, maxStamina as real)
  }

  /** The parts of the game state a nap changes (`Game1.timeOfDay`,
      `Game1.gameTimeInterval` and the player's stamina and bed flag). */
  class GameWorld {
    var timeOfDay: int
    var gameTimeInterval: int
    var stamina: real
    var maxStamina: int
    var isInBed: bool

    constructor (timeOfDay: int, stamina: real, maxStamina: int)
      ensures this.timeOfDay == timeOfDay && this.stamina == stamina && this.maxStamina == maxStamina
      ensures gameTimeInterval == 0 && !isInBed
    {
      this.timeOfDay := timeOfDay;
      this.stamina := stamina;
      this.maxStamina := maxStamina;
      gameTimeInterval := 0;
      isInBed := false;
    }
  }

  /** The nap state machine: the `_napping` flag, and the completion
      delegate the pending fade will run (`None` when no fade is pending). */
  class NapController {
    var napping: bool
    var pending: Option<NapTarget>
    const world: GameWorld

    /** A fade is pending exactly while the flag is set. */
    ghost predicate Valid()
      reads this
    {
      napping <==> pending.Some?
    }

    constructor (world: GameWorld)
      ensures Valid() && !napping && this.world == world
    {
      napping := false;
      pending := None;
      this.world := world;
    }

    /** `AnswerDialogueAction_Prefix`: answers other than the Nap response
        run the game's handler untouched; a Nap answer while a nap is in
        progress is swallowed; otherwise exactly one nap begins. */
    method AnswerDialogueAction(cfg: Config, questionAndAnswer: string) returns (runVanilla: bool)
      requires Valid() && cfg.minutesPerStamina > 0.0
      modifies this, world
      ensures Valid()
      ensures runVanilla <==> questionAndAnswer != NapAnswer
      ensures questionAndAnswer != NapAnswer || old(napping) ==>
                napping == old(napping) && pending == old(pending) && unchanged(world)
      ensures questionAndAnswer == NapAnswer && !old(napping) ==>
                napping &&
                pending == Some(ExecutionTarget(cfg, old(world.timeOfDay), old(MissingStamina(world.maxStamina, world.stamina)))) &&
                world.isInBed &&
                world.timeOfDay == old(world.timeOfDay) && world.stamina == old(world.stamina) &&
                world.maxStamina == old(world.maxStamina) &&
                world.gameTimeInterval == old(world.gameTimeInterval)
    {
      if questionAndAnswer != NapAnswer {
        return true;
      }
      if napping {
        return false;
      }
      DoNap(cfg);
      return false;
    }

    /** `DoNap`: sets the flag, recomputes the plan from the current state
        (`DoNap`'s own inlined plan statements, shown here to be
        `Plan` followed by the end-of-day clamp), puts the player in bed and
        schedules the completion. Neither the clock nor stamina changes
        here. */
    method DoNap(cfg: Config)
      requires Valid() && !napping && cfg.minutesPerStamina > 0.0
      modifies this, world
      ensures Valid() && napping
      ensures pending == Some(ExecutionTarget(cfg, old(world.timeOfDay), old(MissingStamina(world.maxStamina, world.stamina))))
      ensures world.isInBed
      ensures world.timeOfDay == old(world.timeOfDay) && world.stamina == old(world.stamina)
      ensures world.maxStamina == old(world.maxStamina)
      ensures world.gameTimeInterval == old(world.gameTimeInterval)
    {
      napping := true;
      var missing := MissingStamina(world.maxStamina, world.stamina);
      var napMinutes := Ceiling(missing * cfg.minutesPerStamina);
      ghost var raw := napMinutes;
      napMinutes := RoundUpToTen(napMinutes);
      ghost var rounded := napMinutes;
      if napMinutes < 10 {
        napMinutes := 10;
      }
      NapMinutesSteps(missing, cfg.minutesPerStamina, raw, rounded, napMinutes);
      ghost var plan := Plan(world.timeOfDay, missing, cfg.minutesPerStamina, cfg.maxWakeUpTime);
      var wakeUpTime := AddGameMinutes(world.timeOfDay, napMinutes);
      assert wakeUpTime == CandidateWake(world.timeOfDay, missing, cfg.minutesPerStamina);
      var staminaToRestore := missing;
      if wakeUpTime > cfg.maxWakeUpTime {
        wakeUpTime := cfg.maxWakeUpTime;
        var actualMinutes := GameMinutesBetween(world.timeOfDay, wakeUpTime);
        staminaToRestore := actualMinutes as real / cfg.minutesPerStamina;
      }
      assert wakeUpTime == plan.wakeUpTime && staminaToRestore == plan.staminaToRestore;
      if wakeUpTime >= DayEnd {
        wakeUpTime := LastTick;
      }
      world.isInBed := true;
      pending := Some(NapTarget(wakeUpTime, staminaToRestore));
    }

    /** The fade's completion delegate, run once per `DoNap`: moves the clock
        to the target, resets the tick accumulator, restores stamina up to
        the maximum, takes the player out of bed and clears the flag. */
    method FadeComplete()
      requires Valid() && napping
      modifies this, world
      ensures Valid() && !napping && pending == None
      ensures world.timeOfDay == old(pending.value.targetTime)
      ensures world.gameTimeInterval == 0
      ensures world.stamina ==
                StaminaAfterNap(old(world.stamina), old(pending.value.targetStamina), old(world.maxStamina))
      ensures world.stamina <= world.maxStamina as real
      ensures world.maxStamina == old(world.maxStamina) && !world.isInBed
    {
      var target := pending.value;
      world.timeOfDay := target.targetTime;
      world.gameTimeInterval := 0;
      world.stamina := MinReal(world.stamina + target.targetStamina, world.maxStamina as real);
      world.isInBed := false;
      napping := false;
      pending := None;
    }
  }

  /** A Nap answer given twice before the fade completes, followed by the
      completion: the clock and stamina change once, by the plan computed
      at the first answer. */
  method AnswerTwiceThenWake(c: NapController, cfg: Config)
    requires c.Valid() && !c.napping && cfg.minutesPerStamina > 0.0
    modifies c, c.world
    ensures c.Valid() && !c.napping
    ensures var t := ExecutionTarget(cfg, old(c.world.timeOfDay), old(MissingStamina(c.world.maxStamina, c.world.stamina)));
            c.world.timeOfDay == t.targetTime &&
            c.world.stamina == StaminaAfterNap(old(c.world.stamina), t.targetStamina, old(c.world.maxStamina))
  {
    var first := c.AnswerDialogueAction(cfg, NapAnswer);
    var second := c.AnswerDialogueAction(cfg, NapAnswer);
    assert !first && !second;
    c.FadeComplete();
  }

  // ---------------------------------------------------------------------
  // Properties relating the executor to the plan and the offer

  /** If the gate offered a nap and nothing changed before the answer, the
      executor wakes the player at exactly the time shown in the Nap label
      and restores exactly the planned stamina. */
  lemma ExecutorMatchesOffer(cfg: Config, action: seq<string>, w: WorldSnapshot)
    requires cfg.minutesPerStamina > 0.0 && w.maxStamina > 0
    requires PerformTouchAction(cfg, action, w).AskQuestion?
    ensures var t := ExecutionTarget(cfg, w.timeOfDay, Missing(w));
            var p := OfferPlan(cfg, w);
            t == NapTarget(p.wakeUpTime, p.staminaToRestore) &&
            NapLabel(p, w.maxStamina).time == FormatGameTime(t.targetTime)
  {
  }

  /** If the gate offered a nap from a quantised time under a quantised
      limit and nothing changed before the answer, the executor moves the
      clock strictly forward. */
  lemma ExecutorAdvancesAfterOffer(cfg: Config, action: seq<string>, w: WorldSnapshot)
    requires cfg.minutesPerStamina > 0.0 && w.maxStamina > 0
    requires Quantised(w.timeOfDay) && Quantised(cfg.maxWakeUpTime)
    requires PerformTouchAction(cfg, action, w).AskQuestion?
    ensures w.timeOfDay < ExecutionTarget(cfg, w.timeOfDay, Missing(w)).targetTime
  {
    OfferedNapIsSound(cfg, action, w);
  }

  /** Unlike the gate, the executor has no "wake must be after now" test: run
      at 22:00 under the default 18:00 limit, it would set the clock back to
      18:00 and restore nothing. The gate never offers the nap in that state
      (`LateEveningIsSuppressed`), so this happens only if the state changes
      between the offer and the answer. */
  lemma ExecutorRewindsLateClock()
    ensures ExecutionTarget(DefaultConfig, 2200, 200.0) == NapTarget(1800, 0.0)
  {
    LateEveningExample();
  }

  /** Within the settings menu's ranges the latest wake time is at most
      24:00, so the executor's 25:50 clamp never changes the plan. */
  lemma ClampUnusedInRange(cfg: Config, now: int, missing: real)
    requires SettingsInRange(cfg)
    ensures ExecutionTarget(cfg, now, missing).targetTime ==
            Plan(now, missing, cfg.minutesPerStamina, cfg.maxWakeUpTime).wakeUpTime
  {
  }

  /** With a latest wake time edited by hand past the end of the day
      (27:00), a nap from 24:00 with 300 points missing plans to wake at
      26:30, and the executor pulls it back to 25:50 while still restoring
      all 300 points. */
  lemma ClampExample()
    ensures ExecutionTarget(Config(true, 0.5, 2700), 2400, 300.0) == NapTarget(LastTick, 300.0)
  {
    assert (-(300.0 * 0.5)).Floor == -150;
    assert NapMinutes(300.0, 0.5) == 150;
    assert AddGameMinutes(2400, 150) == 2630;
  }

  /** An uncapped nap with stamina missing restores the player to full. */
  lemma UncappedNapRestoresFully(cfg: Config, now: int, stamina: real, maxStamina: int)
    requires cfg.minutesPerStamina > 0.0 && stamina < maxStamina as real
    requires !Plan(now, MissingStamina(maxStamina, stamina), cfg.minutesPerStamina, cfg.maxWakeUpTime).capped
    ensures var t := ExecutionTarget(cfg, now, MissingStamina(maxStamina, stamina));
            StaminaAfterNap(stamina, t.targetStamina, maxStamina) == maxStamina as real
  {
  }

  /** A capped nap from quantised times restores the planned amount in full
      and leaves the player strictly below the maximum. */
  lemma CappedNapLeavesPlayerShort(cfg: Config, now: int, stamina: real, maxStamina: int)
    requires cfg.minutesPerStamina > 0.0 && stamina < maxStamina as real
    requires Quantised(now) && Quantised(cfg.maxWakeUpTime)
    requires Plan(now, MissingStamina(maxStamina, stamina), cfg.minutesPerStamina, cfg.maxWakeUpTime).capped
    ensures var t := ExecutionTarget(cfg, now, MissingStamina(maxStamina, stamina));
            var s := StaminaAfterNap(stamina, t.targetStamina, maxStamina);
            s == stamina + t.targetStamina && stamina <= s < maxStamina as real
  {
    CappedPlanIsPartial(now, MissingStamina(maxStamina, stamina), cfg.minutesPerStamina, cfg.maxWakeUpTime);
  }
}
