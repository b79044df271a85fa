# Pac-Man ghost strategy timer and levels, in Dafny

This project models two pieces of a Pac-Man game's model layer:

- **`ChaseRandomCompositeStrategyGhost`** is the composite ghost movement strategy. It holds
  two sub-strategies (Chase, then Dumb), the index `current` of the active one, and a
  countdown `temps` in milliseconds that starts at 5000. Each call of `moveStrategy` does one
  of two things. If the countdown is at zero or below, it re-arms it to 5000 and ignores the
  tick's delta. Otherwise it subtracts the delta. Nothing else is read or changed: not the
  ghost, the game, the sub-strategies or the active index.
  In Dafny this is a class with a mutable field and a `modifies this` method. The method is
  tied to a pure one-tick function `Step`. Lemmas about `Run` (one `Step` per delta, in order)
  describe what a run of calls does: the bounds the countdown keeps, when the first reset
  happens, and the period under a constant delta.
- **`Level`** is an immutable pair of a level number and a game map. In Dafny it is a class
  with `const` fields, a constructor that stores its arguments, and two getters.

Files: `game_types.dfy` (Java's fixed-width integers and the opaque `GameMap`, `Ghost` and
`PacmanGame`), `level.dfy`, `composite_strategy.dfy` (the class and `Step`),
`timer_properties.dfy` (the run lemmas).

## Model

| member | source | states |
|---|---|---|
| Levels.Level.constructor | src/main/java/fr/univartois/butinfo/r304/pacman/model/Level.java:36-54 | Any `int` level number (zero and negative ones too) and any map reference (`null` too) are accepted, and construction cannot fail. Afterwards `LevelNumber()` returns exactly the number passed in and `Map()` returns exactly the map passed in. The fields are `const`, so a level never changes. |
| CompositeStrategy.ChaseRandomCompositeStrategyGhost.constructor | src/main/java/fr/univartois/butinfo/r304/pacman/model/animated/ChaseRandomCompositeStrategyGhost.java:24-31 | A fresh strategy has `temps == 5000`, `current == 0` (Java's default) and sub-strategies `[Chase, Dumb]` in that order. |
| CompositeStrategy.ChaseRandomCompositeStrategyGhost.MoveStrategy | src/main/java/fr/univartois/butinfo/r304/pacman/model/animated/ChaseRandomCompositeStrategyGhost.java:38-46 | If `temps <= 0` before the call, `temps` is 5000 afterwards whatever the delta. Otherwise `temps` drops by exactly the delta and ends above `-delta`. If `temps <= 5000` before and the delta is non-negative, `temps <= 5000` afterwards. The ghost and the game may be `null` and are neither read nor changed. The sub-strategies and `current` are unchanged, and only this object may change. |
| TimerProperties.RunAppend | src/main/java/fr/univartois/butinfo/r304/pacman/model/animated/ChaseRandomCompositeStrategyGhost.java:38-46 | The countdown's only state is `temps`, so a run of calls can be split anywhere. The second part continues from the value the first part left. |
| TimerProperties.RunStaysWithinInterval | src/main/java/fr/univartois/butinfo/r304/pacman/model/animated/ChaseRandomCompositeStrategyGhost.java:29-45 | With non-negative deltas, `temps <= 5000` is kept by every call of any run. |
| TimerProperties.RunBounds | src/main/java/fr/univartois/butinfo/r304/pacman/model/animated/ChaseRandomCompositeStrategyGhost.java:40-45 | With deltas in `[0, maxDelta]`, the countdown stays in `(-maxDelta, 5000]` over any run. It never undershoots zero by a whole `maxDelta`. |
| TimerProperties.CountdownBeforeReset | src/main/java/fr/univartois/butinfo/r304/pacman/model/animated/ChaseRandomCompositeStrategyGhost.java:29-45 | From a fresh countdown, while every earlier prefix of the run has passed less than 5000 ms, no reset has happened. The countdown equals 5000 minus the total time passed. |
| TimerProperties.FirstReset | src/main/java/fr/univartois/butinfo/r304/pacman/model/animated/ChaseRandomCompositeStrategyGhost.java:29-45 | From a fresh countdown, suppose the total time passed first reaches 5000 after `k` calls. Then none of the first `k` calls resets. Call `k + 1` resets, and afterwards the countdown is back at 5000. |
| TimerProperties.SumConstant | src/main/java/fr/univartois/butinfo/r304/pacman/model/animated/ChaseRandomCompositeStrategyGhost.java:38-44 | `n` ticks of the same delta `d` pass `n * d` ms in total. |
| TimerProperties.ConstantDeltaCountdown | src/main/java/fr/univartois/butinfo/r304/pacman/model/animated/ChaseRandomCompositeStrategyGhost.java:29-45 | With a constant delta `d > 0`, let `n` be the first tick count whose total reaches 5000. After any `j <= n` calls, the countdown is exactly `5000 - j * d`. |
| TimerProperties.ConstantDeltaFirstReset | src/main/java/fr/univartois/butinfo/r304/pacman/model/animated/ChaseRandomCompositeStrategyGhost.java:29-45 | With a constant delta `d > 0` and `n` the smallest count with `n * d >= 5000`: the countdown stays positive through the first `n - 1` calls and reaches zero or below on call `n`. Call `n + 1` re-arms it to 5000. |
| TimerProperties.ConstantDeltaPeriodic | src/main/java/fr/univartois/butinfo/r304/pacman/model/animated/ChaseRandomCompositeStrategyGhost.java:29-45 | With a constant delta, the countdown is back at 5000 after every multiple of `n + 1` calls, so the reset points repeat with period `n + 1`. |

## Left out

- Switching between the Chase and Dumb sub-strategies, and delegating the move to the active one, are not modelled. The source's comments announce this alternation every 5 seconds (ChaseRandomCompositeStrategyGhost.java:22 and :39), but `moveStrategy` (lines 40-45) never reads `listeStrategys` or `current` and never advances `current`; this model follows the code. For the same reason, the countdown model shows that the tick which resets the countdown drops its delta.
- CompositeStrategy.ChaseRandomCompositeStrategyGhost.MoveStrategy: `temps` is a Java `double` in the source. Here it is an exact integer. It only ever holds 5000 minus sums of `long` deltas, so the only difference is that rounding of `double` (magnitudes beyond 2^53) is not modelled.
- Levels.Level.constructor: the level number is a Java `int`, and the model accepts the whole `int32` range; the code does not validate the level number.
- `DumbStrategyGhost.moveStrategy` is an empty generated stub (DumbStrategyGhost.java:29-32) with no behaviour to state.
- `CardGeneratorDecorated.generate` is a stub that returns `null` (CardGeneratorDecorated.java:26-29). Map generation is not part of this model.
- `GameMap`, `Ghost` and `PacmanGame` are not part of this model. They appear as empty classes, passed and stored by possibly-null reference only. The `IStrategyGhost` interface is dropped: the class does not implement anything here, and the elements of `listeStrategys` are represented by `SubStrategy` tags (Chase, Dumb).
- The strategy design-pattern annotations (DumbStrategyGhost.java:10-11,20) are metadata with no behaviour.
- The Chase strategy and the tick loop that calls `moveStrategy` are not part of this model. The elapsed-time delta of each tick is a parameter.
