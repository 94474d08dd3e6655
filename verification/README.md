# BubblePop game engine in Dafny

This project models the headless engine inside `GameManager` of the BubblePop
iOS game. Bubbles spawn on a timer and drift up the screen. The player pops them
by tapping, and a same-colour chain multiplies the award by 1.5 each time.
A countdown ends the session, and the final score is appended to a score store.

The whole manager is one immutable `GameState` record (`game.dfy`): score,
bubble list, point-effect list (`activePoints`), time remaining, initial time
limit, bubble cap, player name, game-over flag, last popped colour and award,
whether the countdown and spawn timers are scheduled, how many save blocks
are queued, and the saved score store. The public `startGame` call and every
timer or main-queue callback of `GameManager` is a pure transition: `Start`, `Tick`, `Finish`, `SpawnTick`, `Pop`, `Expire`,
`RemoveBubble` and `RemoveEffect`. These are collected into `Step`/`Run` over
a sequence of `Event`s. Randomness, the clock and fresh UUIDs are inputs
(`SpawnInput`, event arguments).

Modules:

- `entities.dfy`: `Options` (the optional type) and `Entities` (`Bubble`,
  `PointEffect`, `PlayerScore`, the five colours, the bubble radius).
- `registry.dfy`: `Registry`, id lookup (`firstIndex(where:)`), `remove(at:)`,
  and a reference "drop this id" definition that removal is proved against.
- `scoring.dfy`: `Scoring`, the truncating chain bonus and the high score.
- `spawning.dfy`: `Spawning`, the weighted colour draw, the overlap test and
  the 20-attempt placement loop, each as a function plus, for the two loops,
  a method that mirrors the Swift loop.
- `game.dfy`: `Game`, the state, the invariant `Valid` and the transitions.
- `session.dfy`: `Session`, properties of runs: the invariant is kept, the
  score never falls, the countdown length, one save per session, chains over
  several pops, and what a restart forgets.

Behaviour worth knowing, as the code has it:

- Game over happens in two phases. The zero tick invalidates both timers and
  queues a main-queue block. That block (`Finish`) saves the score and sets
  `isGameOver`. A pop processed in between still counts toward the saved
  score. `resetGame` cannot cancel a queued block, so the model counts queued
  blocks (`pendingFinishes`) instead of using a flag.
- `resetGame` copies `timeRemaining` into `initialTimeLimit` and does not
  restore a configured limit. Restarting after a countdown that ran out,
  without touching the settings, ends at the first tick
  (`Session.RestartAfterTimeUp`).
- `popBubble` does not check `isGameOver`, so pops after game over still
  score.
- The spawn cap compares the whole bubble list with `maxBubbles`, so popped
  bubbles that are not yet removed count too.

## Model

| member | source | states |
|---|---|---|
| `Scoring.Truncate` | BubblePop/Utilities/GameManager.swift:388 | `Int(_:)` on a Double truncates toward zero: the result is within one of the argument, on the side of zero |
| `Scoring.ChainPointsExact` | BubblePop/Utilities/GameManager.swift:388 | for a non-negative last award, the truncated product `last * 1.5`, taken on exact reals, is `(3*last)/2`, i.e. `last + last/2`. This agrees with Swift's `Int(Double(last) * 1.5)` while `3*last < 2^53`. From there on the `Double` product can be rounded before truncation (see Left out) |
| `Scoring.ChainPointsOdd` | BubblePop/Utilities/GameManager.swift:388 | because truncation goes toward zero, the bonus of a negative base mirrors the bonus of the positive one |
| `Scoring.ChainPointsGrow` | BubblePop/Utilities/GameManager.swift:388 | a chain bonus is at least its base, and strictly more once the base is 2 or more |
| `Scoring.Award` | BubblePop/Utilities/GameManager.swift:385-391 | a remembered award plus a matching remembered colour gives `last + last/2`; otherwise the bubble's own points; with positive inputs the award is positive |
| `Scoring.ChainFromTen` | BubblePop/Utilities/GameManager.swift:385-398 | chaining from 10 truncates at every step: 10, 15, 22, 33, 49 |
| `Scoring.ChainAwardMonotone` | BubblePop/Utilities/GameManager.swift:385-398 | a chain from a positive base never shrinks from one pop to the next |
| `Scoring.HighScore` | BubblePop/Utilities/GameManager.swift:120-124 | 0 for an empty store; otherwise a score that occurs in the store and is at least every stored score |
| `Scoring.HighScoreExample` | BubblePop/Utilities/GameManager.swift:120-124 | an empty store gives 0; records 50, 90, 30 give 90 |
| `Registry.FirstIndex` | BubblePop/Utilities/GameManager.swift:435 | `firstIndex(where:)` is absent exactly when no element has the id; otherwise it is the earliest position holding it |
| `Registry.RemoveFirstIsWithout` | BubblePop/Utilities/GameManager.swift:435-437 | with unique ids, `remove(at: firstIndex)` equals dropping that id and keeps all other elements in order |
| `Registry.WithoutKeys` | BubblePop/Utilities/GameManager.swift:451-453 | after dropping an id, that id is gone, every other id remains, and unique ids stay unique |
| `Spawning.DrawAtSevenTenths` | BubblePop/Utilities/GameManager.swift:200-211 | because the literal 0.70 is stored as the `Double` just below seven tenths, a draw equal to that `Double` fails `threshold > r` for Pink and selects Green |
| `Spawning.FirstAbove` | BubblePop/Utilities/GameManager.swift:209 | `first(where: threshold > r)` picks a row above `r` with every earlier row at or below `r`, or none when all rows are at or below `r` |
| `Spawning.DrawColour` | BubblePop/Utilities/GameManager.swift:200-211 | no colour exactly when `r >= 1`; otherwise the unique row with `t[i-1] <= r < t[i]`, worth 1, 2, 5, 8 or 10 points |
| `Spawning.Latest` | BubblePop/Utilities/GameManager.swift:294-310 | the scan ignores popped bubbles and keeps those within one diameter in x; it yields one with the greatest creation time, the earliest on ties, or none if no candidate exists |
| `Spawning.OverlapsIffSomeYoung` | BubblePop/Utilities/GameManager.swift:294-348 | judging only the newest candidate's age gives the same answer as asking whether any candidate is younger than the minimum age |
| `Spawning.FindOverlapping` | BubblePop/Utilities/GameManager.swift:294-348 | the imperative loop decides overlap exactly as the fold-based definition does |
| `Spawning.FreeSlot` | BubblePop/Utilities/GameManager.swift:239-253 | placement fails exactly when every drawn x overlaps; otherwise it returns the first drawn x that does not overlap |
| `Spawning.Place` | BubblePop/Utilities/GameManager.swift:239-253 | the bounded attempt loop (at most 20 tries, stopping at the first free x) finds a position exactly when one of the 20 draws is free, and returns that first free x |
| `Game.NewManager` | BubblePop/Utilities/GameManager.swift:24-43 | the freshly constructed manager (60 s, 15 bubbles, nothing remembered) satisfies the engine invariant |
| `Game.Reset` | BubblePop/Utilities/GameManager.swift:66-76 | reset leaves score 0, no bubbles or effects, not game over, nothing remembered, `initialTimeLimit == timeRemaining`, both timers stopped, store and settings kept, and the invariant holds |
| `Game.Start` | BubblePop/Utilities/GameManager.swift:60-76 | a start leaves an empty session: score 0, no bubbles or effects, no chain, not game over. Both timers run, the time limit is the current clock, and the store, queued blocks, bubble cap and player name are kept. The invariant holds |
| `Session.RestartIdempotent` | BubblePop/Utilities/GameManager.swift:60-64 | two starts in a row give the same state as one start (each start tears down and reschedules the timers), so the tick after them behaves the same too |
| `Game.Tick` | BubblePop/Utilities/GameManager.swift:171-182 | a tick with the countdown stopped changes nothing. With time left it takes exactly one second off and changes nothing else. At zero it stops both timers and queues exactly one save block, changing nothing else. So the clock never goes below zero and never moves by more than one second |
| `Game.Finish` | BubblePop/Utilities/GameManager.swift:177-181 | the queued block appends exactly one record (player name, current score), sets game over and changes nothing else; with nothing queued it changes nothing |
| `Game.SpawnTick` | BubblePop/Utilities/GameManager.swift:139-259 | a spawn tick touches only the bubble list and appends at most one bubble, and only while spawning is scheduled and below the cap, so it never exceeds the cap. The new bubble has the fresh id, is unpopped, is created now, has the drawn colour and points, and sits at the first free draw, clear of every too-young neighbour. It always appends when allowed, `r` is in [0,1) and some draw is free |
| `Game.SpawnStep` | BubblePop/Utilities/GameManager.swift:199-259 | running the placement loop step by step gives the same state as the functional spawn tick |
| `Game.Pop` | BubblePop/Utilities/GameManager.swift:362-398 | nothing changes exactly when no unpopped bubble has the id. Otherwise the pop marks exactly that bubble popped and raises the score by the award. It records the colour and award as the last pop, queues one effect carrying the award, and changes nothing else |
| `Game.PopIdempotent` | BubblePop/Utilities/GameManager.swift:362-365 | popping the same id twice is the same as popping it once, so it scores once and creates one effect |
| `Game.Expire` | BubblePop/Utilities/GameManager.swift:270-278 | expiry removes exactly the bubble with the id if it is present and unpopped, and otherwise leaves the list alone; nothing else changes |
| `Game.RemoveBubble` | BubblePop/Utilities/GameManager.swift:431-439 | the delayed removal drops exactly the bubble with the id (if any), keeps the others in order and changes nothing else |
| `Game.RemoveEffect` | BubblePop/Utilities/GameManager.swift:447-455 | the delayed removal drops exactly the effect with the id (if any), keeps the others in order and changes nothing else |
| `Session.StepKeepsValid` | BubblePop/Utilities/GameManager.swift:60-455 | every transition with fresh ids keeps the invariant: non-negative score and clock, bubble count within the cap, unique ids, positive awards, last colour and award remembered together |
| `Session.RunKeepsValid` | BubblePop/Utilities/GameManager.swift:145-147 | along any run the bubble list never exceeds `maxBubbles`, and the invariant holds throughout |
| `Session.ScoreNeverDecreases` | BubblePop/Utilities/GameManager.swift:393 | within a session (no restart) the score never decreases |
| `Session.TicksDecrement` | BubblePop/Utilities/GameManager.swift:171-172 | while time is left, k ticks take exactly k seconds off and change nothing else |
| `Session.TicksIdle` | BubblePop/Utilities/GameManager.swift:173-175 | once the countdown is invalidated, further ticks change nothing |
| `Session.CountdownLength` | BubblePop/Utilities/GameManager.swift:162-185 | after a start with T seconds, T ticks bring the clock to exactly 0 with the countdown still running. Tick T+1 stops both timers and queues exactly one save block, and every later tick is a no-op |
| `Session.SavesWithinBudget` | BubblePop/Utilities/GameManager.swift:171-182 | within a session the store only grows at its end, by at most the queued blocks plus one for a still-running countdown |
| `Session.GameOverOnce` | BubblePop/Utilities/GameManager.swift:171-182 | a session started with no stale block queued saves at most once, and after its save nothing saves again before a restart |
| `Session.FinishedScoreVisible` | BubblePop/Utilities/GameManager.swift:177-181 | once the save block runs, `getHighScore` is at least the finished session's score and the game is over |
| `Session.NoSpawnAfterStop` | BubblePop/Utilities/GameManager.swift:173-175 | with both timers stopped, no run without a restart reschedules a timer or moves the clock. The bubble list never grows, and every bubble id left was already there, so no bubble is spawned |
| `Session.SameColourChain` | BubblePop/Utilities/GameManager.swift:385-398 | k pops of alive bubbles of the chain's colour leave the remembered award at the k-th truncated chain step and raise the score by at least k times the starting award |
| `Session.RestartForgetsSession` | BubblePop/Utilities/GameManager.swift:66-76 | the state after a start depends only on the clock, cap, player name, store and queued blocks, never on the previous session's score, bubbles, effects or chain |
| `Session.RestartAfterTimeUp` | BubblePop/Utilities/GameManager.swift:75 | a restart with the clock at 0 takes 0 as the time limit, and its first tick already ends the session |

## Left out

- JSON encoding, file reading and writing in `saveScore`/`loadScores`, and the duplicate loader in `ResultView`. The store is an abstract sequence of records that a save appends to. A failed write is not modelled.
- `Timer`, `DispatchQueue` and the delays (0.3 s spawn interval, 1 s countdown, 0.3 s and 1 s removals). Each callback is a transition the environment may invoke in any order. Removing a popped bubble or an effect before its delay is therefore allowed by the model.
- The floating-point speed and progress formula, the screen-pass time and the safety factor. The resulting "dynamic min time" is the `minAge` input. The bubble's `speed`, its animated y coordinate and `lastTappedPosition` serve only the animation.
- `Date()`, `UUID()`, `Double.random` and `CGFloat.random` become inputs: a clock reading, fresh ids, the colour draw `r` and 20 candidate x positions. The range of the x draws depends on the screen width and is not modelled.
- `PlayerScore.id` is a UUID used only by the list views.
- All SwiftUI views. The settings sliders that write `timeRemaining` and `maxBubbles` are presentation glue. The run lemmas start from any valid state instead.
- `Scoring.ChainPoints`: the chain bonus is computed on exact reals. `Double(last) * 1.5` is rounded (ties to even) once `3*last >= 2^53`, that is for `last` from about 3.0e15. For example, `last = 3002399751580333` gives 4503599627370500 in Swift but 4503599627370499 in the model. Awards that large are not modelled.
- Bubble x positions are `CGFloat` in `GameManager`. The model uses integers for them and for the one-diameter distance test, so `CGFloat` rounding in `abs(x - b.x)` is not modelled.
- `GameManager` reads the clock afresh for every overlap test and again when the bubble is created. The model uses a single reading, `now`, for all 20 tests of one spawn and for the new bubble's `creationTime`. Times are integers, not `Date` intervals.
- The random draw `r` is any real, not only a `Double` in [0, 1). The colour thresholds are the exact `Double` values of the Swift literals (`Spawning.DrawAtSevenTenths`).
- Game.Pop: the source appends the point effect in a separate main-queue block. The model appends it within the pop.
- Scoring.Award: for a negative remembered award the contract states nothing beyond `Scoring.ChainPointsOdd`. No reachable state has one, since every award is at least 1.
- Swift's trapping `Int` overflow on `score += pointToAdd` and `Int(Double)`. Integers are unbounded.
- Colours are a five-value datatype rather than SwiftUI `Color`. The five colours in the table are distinct, so comparing colours is the same as comparing table rows.
