# NapTime nap engine, modelled in Dafny

NapTime is a Stardew Valley mod. When a player touches their bed while
missing energy, it adds a **Nap** choice to the game's "Go to sleep?"
question. A nap fades the screen to black and advances the clock by the
time the missing stamina costs. The cost is `MinutesPerStamina` minutes per
point, rounded up to a whole ten minutes, with a minimum of ten. The nap
then restores that stamina. A configurable latest wake-up time
(`MaxWakeUpTime`, default 18:00) caps the nap. A capped nap restores only
what the minutes actually slept pay for.

This project models the nap engine of `Patches/SleepPatches.cs` and proves
its properties:

- `dotnet.dfy` (module `DotNet`) covers the C#/.NET operators whose meaning
  differs from Dafny's:
  - integer `/` and `%` truncate toward zero;
  - `Math.Ceiling`;
  - `Math.Round`, whose default midpoint rule rounds to even;
  - `Math.Max` and `Math.Min`.
- `clock.dfy` (module `Clock`) holds the time helpers over the
  `hour * 100 + minute` encoding: `RoundUpToTen`, `AddGameMinutes`,
  `GameMinutesBetween` and `FormatGameTime`. The last one is modelled as the
  triple it renders: the displayed hour, the minute and AM/PM.
- `planner.dfy` (module `NapPlanner`) holds the nap plan. `SleepPatches` writes
  it out twice, at offer time and at execution time. Here it is one
  function, `Plan`; both call sites keep their own statements and are
  proved to compute `Plan`.
- `gate.dfy` (module `SleepGate`) holds `PerformTouchAction_Prefix`. It is a
  pure decision over a snapshot of the world. It either lets the game's own
  question run, or asks the mod's question with responses `Nap`, `Yes` and
  `No`, in that order.
- `executor.dfy` (module `NapExecutor`) holds `AnswerDialogueAction_Prefix`,
  `DoNap` and the fade-completion delegate. They are the class
  `NapController`, which owns the `_napping` flag and the pending fade
  target. It acts on a `GameWorld` object that holds the game fields a nap
  changes. `DoNap` begins a nap, and `FadeComplete` is the delegate. The host
  runs the delegate once per `DoNap`, which is the precondition of
  `FadeComplete`.

Stamina and `MinutesPerStamina` are C# `float`s. Here they are exact `real`s.
Every operation that divides by `MinutesPerStamina` requires it to be
positive. The settings menu only allows values from 0.1 to 5.0.

Two behaviours of the code worth knowing:

- The capped-nap percentage uses `Math.Round` with .NET's default midpoint
  rule, half to even, not half away from zero: 12.5 shows as 12
  (`SleepGate.PercentRounding`).
- The capped percentage is of the maximum stamina (`MaxStamina`), not of
  the deficit.
- The touch-action gate does not consult the `_napping` flag. Only the
  answer hook does.

## Model

| member | source | states |
|---|---|---|
| `DotNet.Quot` | Patches/SleepPatches.cs:191-194 | C# integer division truncates toward zero: `q * b` lies between the dividend and zero, less than `b` from the dividend; for non-negative dividends it is Euclidean division |
| `DotNet.Rem` | Patches/SleepPatches.cs:192-195 | C# remainder: in `[0, b)` and equal to `a % b` for non-negative dividends; in `(-b, 0]`, with the dividend's sign, for negative ones |
| `DotNet.DivisionIdentity` | Patches/SleepPatches.cs:191-195 | the truncated quotient and the remainder recompose the dividend: `a == Quot(a, b) * b + Rem(a, b)` |
| `DotNet.Ceiling` | Patches/SleepPatches.cs:53 | `Math.Ceiling` returns the least integer not below its argument |
| `DotNet.RoundHalfEven` | Patches/SleepPatches.cs:80 | `Math.Round` is within one half of its argument, and at an exact midpoint it picks the even neighbour |
| `DotNet.MaxInt` | Patches/SleepPatches.cs:206 | `Math.Max` is an upper bound of both arguments and equals one of them |
| `DotNet.MinReal` | Patches/SleepPatches.cs:158-161 | `Math.Min` is a lower bound of both arguments and equals one of them |
| `Clock.RoundUpToTen` | Patches/SleepPatches.cs:180-183 | the result is a multiple of 10 with `v <= r < v + 10`, so it is the smallest multiple of ten not below `v` |
| `Clock.RoundUpToTenExamples` | Patches/SleepPatches.cs:180-183 | 1..10 round to 10 and 11 rounds to 20 |
| `Clock.TotalMinutes` | Patches/SleepPatches.cs:204-205 | minutes since midnight with C#'s truncating operators; not negative for a non-negative value; `Clock.TenthsOfTotal` shows it is a multiple of ten on quantised values and `Clock.EncodingOrder` that it follows the encoded order |
| `Clock.AddGameMinutes` | Patches/SleepPatches.cs:189-199 | adds minutes and truncates the minute field to a multiple of ten; its properties are `Clock.AddGameMinutesQuantises`, `Clock.AddGameMinutesTruncates`, `Clock.AddGameMinutesExact`, `Clock.AddGameMinutesMonotone`, `Clock.AddZeroMinutes` and `Clock.AddTensAdvances` |
| `Clock.AddGameMinutesQuantises` | Patches/SleepPatches.cs:189-199 | for `t, m >= 0`, the result's minute field is a multiple of ten in 0..50 |
| `Clock.AddGameMinutesTruncates` | Patches/SleepPatches.cs:189-199 | the result's minutes since midnight are the exact sum, truncated by fewer than ten minutes |
| `Clock.AddGameMinutesExact` | Patches/SleepPatches.cs:189-199 | adding a multiple of ten to a quantised time loses nothing |
| `Clock.AddGameMinutesMonotone` | Patches/SleepPatches.cs:189-199 | the result is non-decreasing in the minutes added |
| `Clock.AddZeroMinutes` | Patches/SleepPatches.cs:189-199 | adding 0 minutes to a quantised time gives it back |
| `Clock.AddTensAdvances` | Patches/SleepPatches.cs:189-199 | adding a positive multiple of ten to a quantised time gives a later quantised time exactly that many minutes ahead |
| `Clock.GameMinutesBetween` | Patches/SleepPatches.cs:202-207 | never negative; the exact difference in minutes since midnight when the end is not earlier, and 0 otherwise |
| `Clock.EncodingOrder` | Patches/SleepPatches.cs:204-205 | on quantised times, `a <= b` exactly when `a` is no later than `b` in minutes since midnight |
| `Clock.MinutesBetweenQuantised` | Patches/SleepPatches.cs:202-207 | between quantised times the gap is 0 exactly when `end <= start`, and it is always a multiple of ten |
| `Clock.MinutesBetweenLateExample` | Patches/SleepPatches.cs:202-207 | 22:00 to 18:00 is 0 minutes; 06:00 to 07:10 is 70 minutes |
| `Clock.OvershootLeavesLess` | Patches/SleepPatches.cs:63-66 | if adding `n` minutes overshoots the limit, then at most `n - 10` minutes lie between the start and the limit |
| `Clock.FormatGameTime` | Patches/SleepPatches.cs:210-225 | the displayed hour, minute and AM/PM of a clock value; its properties are `Clock.FormatGameTimeHour`, `Clock.FormatGameTimeExamples` and `Clock.FormatAfterAddZero` |
| `Clock.FormatGameTimeHour` | Patches/SleepPatches.cs:210-225 | the displayed hour is in 1..12; hours 0 and 12 show as 12; PM exactly when the wrapped hour (hours of 24 and more less 24) is at least 12; the minute field is shown unchanged |
| `Clock.FormatGameTimeExamples` | Patches/SleepPatches.cs:210-225 | 2500 shows as 1:00 AM, 2430 as 12:30 AM, 1200 as 12:00 PM, and 710 as 7:10 AM |
| `Clock.FormatAfterAddZero` | Patches/SleepPatches.cs:210-225 | formatting a quantised time after adding zero minutes shows the same label |
| `NapPlanner.NapMinutes` | Patches/SleepPatches.cs:53-56 | the nap length is a multiple of ten, at least 10, and covers `missing * mps`; it is 10 or the smallest such multiple |
| `NapPlanner.NapMinutesTight` | Patches/SleepPatches.cs:53-56 | ten minutes less than the nap length falls short of the cost of the deficit |
| `NapPlanner.NapMinutesMonotone` | Patches/SleepPatches.cs:53-56 | a larger stamina deficit never gives a shorter nap |
| `NapPlanner.MissingStamina` | Patches/SleepPatches.cs:48 | `MaxStamina - Stamina`, the deficit both call sites start from: restoring it exactly fills the player, and it is positive exactly when stamina is below the maximum |
| `NapPlanner.CandidateWake` | Patches/SleepPatches.cs:58 | the wake time before the limit applies; `NapPlanner.Plan` is capped exactly when it is past the limit, and `NapPlanner.UncappedPlanCoversDeficit` and `Clock.OvershootLeavesLess` say how far it lies from now |
| `NapPlanner.Plan` | Patches/SleepPatches.cs:52-69 | capped exactly when the candidate wake time is past `maxWake`; the wake time is never past `maxWake`; when capped it wakes at `maxWake` and restores the minutes slept divided by `mps`; otherwise it wakes at the candidate and restores the whole deficit |
| `NapPlanner.PlanRestoresNonNegative` | Patches/SleepPatches.cs:59-69 | a deficit that is not negative gives a restoration that is not negative |
| `NapPlanner.UncappedPlanCoversDeficit` | Patches/SleepPatches.cs:53-60 | an uncapped nap from a quantised time sleeps exactly `NapMinutes`, which is at least `missing * mps`, and wakes at a later quantised time |
| `NapPlanner.CappedPlanIsPartial` | Patches/SleepPatches.cs:62-69 | with a positive deficit and quantised times, a capped plan restores at least 0 and strictly less than the deficit |
| `NapPlanner.MorningNapExample` | Patches/SleepPatches.cs:48-69 | 06:00, 135 missing, 0.5 minutes per point, limit 18:00: 68 rounds to 70 minutes, the player wakes at 07:10 with all 135 restored, and the plan is uncapped |
| `NapPlanner.LateEveningExample` | Patches/SleepPatches.cs:63-69 | 22:00, 200 missing, limit 18:00: the plan is capped at 18:00 and restores 0 |
| `SleepGate.PerformTouchAction` | Patches/SleepPatches.cs:36-103 | asks its own question exactly when: napping is enabled; the action is "Sleep"; the game's preconditions hold; stamina is missing; the planned wake time is after now and before 2600. The question then has responses Nap (labelled from the plan), Yes and No, in that order, under the key "Sleep". Otherwise the game's handler runs. The plan it computes inline is `Plan` |
| `SleepGate.RestedPlayerGetsVanilla` | Patches/SleepPatches.cs:48-50 | with no stamina missing, the game's own question always runs |
| `SleepGate.LateEveningIsSuppressed` | Patches/SleepPatches.cs:71-73 | at 22:00 under the default 18:00 limit, no nap is offered even with 200 points missing |
| `SleepGate.LateStartIsSuppressed` | Patches/SleepPatches.cs:58-73 | from a quantised time at or past a quantised latest wake time, the game's own handler always runs: no nap is offered |
| `SleepGate.OfferedNapIsSound` | Patches/SleepPatches.cs:52-73 | an offered nap wakes at a quantised time strictly after now, no later than the limit and before 2600. Uncapped, it restores the whole deficit; capped, it restores strictly less |
| `SleepGate.RestoredPercent` | Patches/SleepPatches.cs:80 | the percentage is within one half of `restored / maxStamina * 100` |
| `SleepGate.RestoredPercentMonotone` | Patches/SleepPatches.cs:80 | restoring more never shows a smaller percentage |
| `SleepGate.NapLabel` | Patches/SleepPatches.cs:75-86 | the Nap response's text: the formatted wake time, with the restored percentage when the plan is capped; `SleepGate.CappedPercentInRange` bounds the percentage and `NapExecutor.ExecutorMatchesOffer` shows the time is where the executor wakes the player |
| `SleepGate.OfferPlan` | Patches/SleepPatches.cs:52-69 | the plan the gate computes from a snapshot, `NapPlanner.Plan` of its time and deficit; `SleepGate.PerformTouchAction` proves its inline statements equal it and `SleepGate.OfferedNapIsSound` states its properties |
| `SleepGate.CappedPercentInRange` | Patches/SleepPatches.cs:78-81 | for a capped offer to a player whose stamina is not negative, the percentage shown is between 0 and 100 |
| `SleepGate.PercentRounding` | Patches/SleepPatches.cs:80 | 12.5 % shows as 12 and 13.5 % as 14 (half to even); 34 of 270 shows as 13 |
| `NapExecutor.ExecutionTarget` | Patches/SleepPatches.cs:124-144 | the executor's target restores the plan's stamina. It wakes at the plan's time, or at 2590 when that time is 2600 or later, so it is always before 2600 |
| `NapExecutor.StaminaAfterNap` | Patches/SleepPatches.cs:158-161 | stamina after waking never exceeds the maximum or stamina plus restore, and equals one of them |
| `NapExecutor.GameWorld.constructor` | Patches/SleepPatches.cs:154-163 | the `Game1` fields a nap reads and writes (clock, tick accumulator, stamina, maximum, bed flag); a new world starts out of bed with the accumulator at 0 |
| `NapExecutor.NapController.constructor` | Patches/SleepPatches.cs:13 | a new controller is not napping and has no fade pending |
| `NapExecutor.NapController.AnswerDialogueAction` | Patches/SleepPatches.cs:108-118 | returns true exactly for answers other than "Sleep_Nap". Those answers, and "Sleep_Nap" while napping, change nothing. Otherwise it begins exactly one nap, as `DoNap` states |
| `NapExecutor.NapController.DoNap` | Patches/SleepPatches.cs:120-151 | sets the flag and schedules `ExecutionTarget` of the current time and deficit; its inline plan computation is `Plan` followed by the clamp. It puts the player in bed and leaves time, stamina and the tick accumulator unchanged |
| `NapExecutor.NapController.FadeComplete` | Patches/SleepPatches.cs:151-174 | sets the clock to the target, the tick accumulator to 0 and stamina to `min(stamina + restore, max)`, which never exceeds the maximum. It takes the player out of bed, clears the flag and leaves no fade pending |
| `NapExecutor.AnswerTwiceThenWake` | Patches/SleepPatches.cs:110-117 | two Nap answers followed by the completion change the clock and stamina once, by the target computed at the first answer |
| `NapExecutor.ExecutorMatchesOffer` | Patches/SleepPatches.cs:124-141 | in an unchanged state, the executor's target is the offered plan, and the Nap label shows the time the executor wakes the player |
| `NapExecutor.ExecutorAdvancesAfterOffer` | Patches/SleepPatches.cs:130-141 | after an offer from a quantised time under a quantised limit, with the state unchanged, the executor moves the clock strictly forward |
| `NapExecutor.ExecutorRewindsLateClock` | Patches/SleepPatches.cs:133-141 | the executor has no "after now" test: at 22:00 under the default limit its target is 18:00, restoring 0 |
| `NapExecutor.ClampUnusedInRange` | Patches/SleepPatches.cs:140-141 | within the settings menu's ranges, the 2590 clamp never changes the planned wake time |
| `NapExecutor.ClampExample` | Patches/SleepPatches.cs:140-141 | with a limit edited to 27:00, a nap from 24:00 planned to 26:30 is pulled back to 25:50 and still restores all 300 points |
| `NapExecutor.UncappedNapRestoresFully` | Patches/SleepPatches.cs:157-161 | an uncapped nap with stamina missing leaves the player at exactly the maximum |
| `NapExecutor.CappedNapLeavesPlayerShort` | Patches/SleepPatches.cs:157-161 | a capped nap from quantised times adds the planned amount in full and leaves the player strictly below the maximum |

## Left out

- Hook installation (`SleepPatches.Apply`): it installs foreign hooks into
  the game engine.
- `ModEntry.cs`: configuration loading and settings-menu registration. The
  slider ranges survive as the predicate `NapPlanner.SettingsInRange`.
- `ModConfig.cs`: it has no logic. It appears as the `Config` datatype and
  `DefaultConfig`.
- Localised strings, `createQuestionDialogue`, `Monitor.Log`, emotes,
  lighting and the fade's timing and speed:
  - responses carry their answer key plus either the nap label or the key
    of the game string;
  - the fade is the explicit pair `DoNap` / `FadeComplete`.
- `FormatGameTime`: the result is the triple (displayed hour, minute, PM).
  The `"H:MM AM/PM"` string and its two-digit padding are not built.
- Floating-point rounding of stamina and `MinutesPerStamina`. Values are
  exact reals, and the float-to-int casts are assumed not to overflow.
- 32-bit integer overflow of clock values: game times stay in the
  hundreds to low thousands.
- A null `action` array is modelled as the empty sequence. `PerformTouchAction_Prefix`
  lets both through to the game.
- Anything else that changes the player's stamina or the clock while the
  fade is running. The model's world changes only through `DoNap` and
  `FadeComplete`.
- `SleepGate.PerformTouchAction` requires `maxStamina > 0`, because the
  capped label divides by it. The game's maximum stamina is always positive.
