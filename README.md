# StreakChecker slot state machine, in Dafny

StreakChecker is a single-component web page: a grid of 100 buttons that must be
pressed in order, one per day. Each button is white (pending), green (clicked) or
red (missed). The component derives two counters from the grid, the current
streak and the id of the next button to press. It also runs a deadline check
that turns the next button red once its predecessor was clicked more than 24
hours ago. This project models that state machine and proves what it guarantees.

Layout, one module per concern of `src/App.jsx`:

- `slots.dfy` (module `Slots`): the slot record, the fresh 100-slot grid, the
  lookup by id, and the invariants of reachable sequences (well-formed ids,
  timestamps that match the state, no green or red slot after a white one).
- `progress.dfy` (module `Progress`): the derivation loop as the method `Derive`,
  proved against the specification functions `FirstPending`, `Streak` and
  `NextButton`, plus the lemmas about those functions.
- `transitions.dfy` (module `Transitions`): the click handler and the deadline
  check as functions over `seq<Slot>`, since the JavaScript code rebuilds the whole array
  with `map`. The lemmas state their effect.
- `app.dfy` (module `App`): the component's state as the class `StreakChecker`.
  Its fields are `buttons`, `currentStreak` and `nextButtonId`, and every method
  re-runs the derivation after it changes `buttons`.

Four points of the component's behaviour are easy to misread:

- The streak is the number of green slots before the first white one. A red
  slot does not end the scan, so a miss does not cap the streak at the count
  before it (`MissedSlotDoesNotCapStreak`, `MissThenContinue`). In every
  reachable sequence the streak is simply the number of green slots
  (`StreakCountsEveryCompleted`).
- A click is a no-op only when its id is not the next id. The handler itself
  does not check that the slot is white. The white check lives in the button's
  `disabled` attribute, modelled as `Enabled` and applied by
  `StreakChecker.PressButton`. `ClickWithoutGuardRestamps` shows what the bare
  handler does to an all-green grid.
- When every slot is green or red, the next id is capped at 100 rather than
  becoming 101. So the "Completed!" headline is unreachable
  (`AllCompletedUnreachable`).
- The deadline check tests the predecessor's click time for JavaScript
  truthiness. A click time of 0 therefore counts as absent, and `DeadlinePassed`
  models that.

Time is the parameter `now` (epoch milliseconds, an unbounded `int`).

## Model

| member | source | states |
|---|---|---|
| Slots.Fresh | src/App.jsx:10-13 | the initial grid is reachable: 100 white slots, ids 1..100, no timestamps |
| Slots.Find | src/App.jsx:57 | like `Array.prototype.find`, the lookup returns the FIRST slot of the sequence with the requested id (no earlier slot has it), or None when no slot has that id |
| Slots.FindWellFormed | src/App.jsx:57 | in a well-formed sequence the lookup for id k gives the slot at index k-1, and None outside 1..100 |
| Progress.FirstPending | src/App.jsx:29-37 | the scan stops at the first white slot: all slots before the result are green or red, and the slot at the result is white |
| Progress.Derive | src/App.jsx:25-42 | the loop with `break` returns exactly the reference values `Streak` (green slots before the first white one, lines 26-38) and `NextButton`, the cap of `UncappedNext` (one past the id of the last slot before the first white one, or 1; lines 27-41) |
| Progress.Cap | src/App.jsx:41 | the next id never exceeds 100, and it is changed only when it is above 100 |
| Progress.HeadlineOf | src/App.jsx:123 | the header shows "Completed!" exactly when the next id exceeds 100 |
| Progress.NextButtonWellFormed | src/App.jsx:27-41 | the next id is the id of the first white slot; when no slot is white it is last id + 1 = 101, capped to 100; it is always in [1, 100] |
| Progress.AllCompletedUnreachable | src/App.jsx:123 | on well-formed grids the "Completed!" branch is never taken |
| Progress.StreakBound | src/App.jsx:26-38 | streak <= number of scanned slots = uncapped next id - 1 <= 100 |
| Progress.StreakCountsEveryCompleted | src/App.jsx:29-38 | when no green or red slot follows a white one, the streak is the number of green slots in the whole grid |
| Progress.AdvanceFirstPending | src/App.jsx:29-38 | turning the first white slot green or red moves the scan's stop one slot further and adds 1 to the streak only for green |
| Progress.NextButtonMonotone | src/App.jsx:29-41 | if no slot goes back to white, the first white position and the next id do not decrease |
| Progress.FreshDerives | src/App.jsx:86-91 | the fresh grid derives streak 0 and next id 1 |
| Progress.MissedSlotDoesNotCapStreak | src/App.jsx:29-38 | green, red, green, white gives streak 2: a red slot neither stops nor adds to the count |
| Transitions.Click | src/App.jsx:73-83 | a click with an id other than the next id returns the sequence unchanged; otherwise every slot with the clicked id becomes `Stamp` of it (green, clickedAt = now, other fields kept; line 79), while slots with other ids, all ids, the length and every green or red status are kept |
| Transitions.ClickChangesOneSlot | src/App.jsx:76-82 | on a well-formed sequence a valid click replaces only the slot with that id by a green one stamped with now; a wrong id changes nothing |
| Transitions.EnabledIsFirstPending | src/App.jsx:136 | `Enabled` (the line-136 test: id equals the next id and the slot is white) holds on a reachable grid only for its first white slot |
| Transitions.ClickEnabled | src/App.jsx:73-83 | pressing the enabled button stamps exactly that slot, keeps the grid reachable, adds 1 to the streak and advances the next id by 1 (capped at 100) |
| Transitions.ClickWithoutGuardRestamps | src/App.jsx:74-82 | with the enable test bypassed, a click on button 100 of an all-green grid overwrites its click time |
| Transitions.CheckTimeouts | src/App.jsx:50-65 | the map applies `ReconcileSlot` (the callback, lines 51-63) to every slot: all ids and the length are kept; green and red slots and slots whose id is not the next id come back unchanged; the only possible change is `Miss` (red, missedAt = now, other fields kept; line 61) |
| Transitions.CheckTimeoutsExact | src/App.jsx:51-63 | on a well-formed grid, `DeadlinePassed` (the lookup, truthiness and 24h test, lines 57-60) reduces to: slot nextId turns red at now if and only if it is white, slot nextId-1 is green with a non-zero click time and now minus that time is strictly more than 24h; otherwise nothing changes |
| Transitions.FirstSlotNeverMissed | src/App.jsx:57-58 | slot 1 has no predecessor and is never auto-missed |
| Transitions.ExactlyOneDayIsInTime | src/App.jsx:60 | exactly 24h after the predecessor's click nothing is missed |
| Transitions.CheckTimeoutsIdempotent | src/App.jsx:52-61 | running the check twice with the same next id and now gives the same result as once |
| Transitions.CheckTimeoutsReachable | src/App.jsx:46-66 | the check keeps a reachable grid reachable and keeps the streak; after a miss the next id advances by 1 (capped at 100), otherwise it stays |
| Transitions.TransitionsAdvanceNext | src/App.jsx:50-82 | neither a click nor the deadline check can move the next id backwards |
| Transitions.MissThenContinue | src/App.jsx:46-83 | slot 1 clicked at t0 != 0: at t0+23h nothing is missed (streak 1, next 2); at t0+25h slot 2 turns red, next id 3, streak 1; clicking 3 then gives streak 2 |
| App.StreakChecker.constructor | src/App.jsx:6-17 | the state starts from the saved grid, or from the fresh grid when nothing is saved, with counters derived from it |
| App.StreakChecker.Refresh | src/App.jsx:25-42 | after the derivation effect both counters agree with the buttons, and the buttons are unchanged |
| App.StreakChecker.PressButton | src/App.jsx:131-137 | a button that fails `Enabled` (line 136) changes nothing; the enabled one stamps its slot, adds 1 to the streak and advances the next id by 1 (capped at 100) |
| App.StreakChecker.CheckTimeoutsAt | src/App.jsx:45-71 | the buttons become the deadline check's result for the current next id; the streak is unchanged and the next id advances exactly when a slot was missed |
| App.StreakChecker.ResetProgress | src/App.jsx:85-93 | afterwards the grid is fresh, the streak is 0 and the next id is 1 |

## Left out

- Persistence: reading, parsing, writing and removing the saved grid in local
  storage (src/App.jsx:8-9, 21, 92) is browser I/O. The constructor takes the
  already parsed grid as an optional argument.
- App.StreakChecker.constructor: requires a saved grid to be reachable. A grid
  the component saved always is, because every method keeps `Valid()`. A
  corrupt or hand-edited saved grid is not modelled.
- Scheduling: `setInterval`, `clearInterval` and the effect re-runs
  (src/App.jsx:68-71) are timer plumbing. `StreakChecker.CheckTimeoutsAt` is one
  run of the check, with `now` as a parameter.
- Clock: `Date.now()` (src/App.jsx:47, 79) becomes the parameter `now`.
- React mechanics: `useState` and `useEffect` scheduling, batching and render
  timing. In the model every mutation re-runs the derivation at once. As a
  result the counters never go stale, and the deadline check always sees the
  current next id. The component's first render shows 0 and 1 before its
  effect runs, and that render is not modelled.
- JavaScript numbers: ids and timestamps are unbounded integers, not IEEE
  doubles. Floating-point rounding is not modelled.
- Rendering: class names, the JSX tree and the icons (src/App.jsx:2, 95-180)
  are presentation. The model keeps only the enable test (line 136) and the
  headline choice (line 123).
