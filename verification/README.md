# Marble engine of a two-dimensional ASCII esoteric language

This project models the marble engine of `dots/dot.py`. A program is a grid of characters. Tokens
called marbles travel across the grid, and each marble carries a state. The engine does two things:

* **Construction.** A marble is created at a spawn cell. Omitted arguments take defaults: id `0`,
  value `0`, stack `[]` and the Travel state. When no heading is given, the initial heading is
  resolved by a first-match scan over up, down, left and right. A heading is taken when its
  neighbour cell exists and holds one of these characters:
  * a pipe `|`, for a vertical heading;
  * a dash `-`, for a horizontal heading;
  * one of `\ / * ^ v > < +`, for any heading.

  If no heading qualifies, an error is reported, the marble is forced Dead and its heading is the
  zero vector. Construction ends with exactly one move.
* **The tick loop** (`simulate_tick`). Each pass of the loop does the following, in order:
  1. In run-until-waiting mode it sends a micro-tick notification.
  2. It stops if the marble is on a cell already visited during this call.
  3. It kills the marble if it is off the grid.
  4. It halts the whole program on `&`.
  5. Otherwise it replaces the state by `next(char)` and carries out `run(char)` of the new state.
     The call then ends if that state is dead or waiting, or after one pass in single-step mode.

The concrete per-character states are not part of this model. `Marbles.Behaviour` gathers the
protocol the engine relies on: `next`, `run`, `isDead` and `isWaiting` are arbitrary total
functions, `dead` is the Dead state and `travel` is the Travel state. Every property below holds
for every such behaviour. `run` returns an `Effect`, which holds the new position, heading, value
and stack. The engine applies it and leaves the id and the state alone.

The grid is a finite map from position to character (`World.Grid`). `World.CharAt` can only be
applied to a cell that exists. So "a cell that does not exist is never read" holds because the
model is well-formed. The process exit on `&` becomes the exit kind `Halt`. The IO notifications
(`on_microtick`, `on_finish`, `on_error`) become an appended trace of `Event`s.

Termination of the run-until-waiting loop is the main result. The loop's `decreases` measure is
the set of existing cells not yet visited during the call, and that set shrinks on every pass
that goes round again. The contract of `Dot.SimulateTick` bounds a call by the number of grid cells
plus one. `TickLoop.SimulateTickLoop` is a `while` loop whose body is one `Dot.Iteration`, proved
equal to `Dot.SimulateTick`.

Files: `option.dfy`, `vector.dfy`, `world.dfy` (helpers); `marble.dfy` (data model and state
protocol); `dot.dfy` (the engine); `direction_props.dfy`, `tick_props.dfy` (properties);
`tick_loop.dfy` (the imperative loop). The inductive lemmas about the loop
(`LoopPath`, `LoopBound`, `LoopEvents`, `LoopFinish`, `LoopExit`) live beside it in `dot.dfy`, because
`SimulateTick`'s contract is proved from them.

## Model

| member | source | states |
|---|---|---|
| `Dot.Move` | dots/dot.py:34-36 | the new position is the old position plus the heading; no other field changes |
| `DirectionProperties.MoveIsUnitStep` | dots/dot.py:34-36 | a move along one of the four unit headings lands on a side-neighbour of the old cell |
| `Dot.Scan` | dots/dot.py:89-103 | the scan returns a heading exactly when one is admitted, and then it is the first admitted heading in list order; it returns none exactly when no heading is admitted |
| `Dot.CalculateDirection` | dots/dot.py:85-103 | the resolved heading is one of the four unit headings and its neighbour exists and admits it; resolution fails exactly when none of the four is admitted |
| `DirectionProperties.FirstMatchInScanOrder` | dots/dot.py:89-103 | heading i is chosen if and only if heading i is admitted and none of the headings before it in the order up, down, left, right is admitted |
| `DirectionProperties.EarlierHeadingWins` | dots/dot.py:89-103 | once an earlier heading is admitted, no later heading is ever chosen |
| `DirectionProperties.LineCharactersFollowOrientation` | dots/dot.py:96-102 | a pipe opens a heading exactly when it is vertical, and a dash exactly when it is horizontal |
| `Dot.NewMarble` | dots/dot.py:20-29 | id, value and stack default to 0, 0 and []; the state defaults to Travel; a given heading is kept; an omitted heading is exactly the first-match result of the direction scan, and construction reports nothing exactly when that scan succeeds; the marble ends one heading-step from its spawn cell; on failed resolution there is exactly one error at the spawn cell, the state is Dead, the heading is zero and the marble has not moved |
| `DirectionProperties.ConstructedMarbleStandsOnOpening` | dots/dot.py:26-29 | when resolution succeeds, construction reports nothing and the marble stands on the neighbour cell that admitted its heading |
| `Dot.Transition` | dots/dot.py:73-74 | the new state is `next(char)` of the old one, and `run` is applied to the marble already carrying that new state |
| `Dot.Iteration` | dots/dot.py:47-83 | a pass that goes round again happens only in run-until-waiting mode, on an unvisited existing cell; a pass that ends the call records its cell, except when it ends on a revisit; a pass sends its micro-tick (run-until-waiting mode only) and, on halt, a finish, and nothing else |
| `Dot.Loop` | dots/dot.py:45-83 | the visited list only grows, the id is never touched, and every exit except a revisit records at least one new cell |
| `Dot.LoopPath` | dots/dot.py:53-61 | the cells visited in one call are distinct; every one of them exists except an off-grid last cell; an off-grid exit is exactly a non-existent last cell; a revisit ends on a visited cell |
| `Dot.LoopBound` | dots/dot.py:45-61 | a call runs at most one pass more than the number of existing cells it has not yet visited |
| `Dot.LoopEvents` | dots/dot.py:50-51 | the notifications of a call are micro-ticks and finishes only; one micro-tick per pass in run-until-waiting mode and none in single-step mode |
| `Dot.LoopFinish` | dots/dot.py:65-70 | a finish notification is sent exactly when the call halts, once, and as the last notification |
| `Dot.LoopExit` | dots/dot.py:53-83 | off-grid and halt exits leave the Dead state (halt on an existing `&` cell); a dead exit has a dead state; a waiting exit has a waiting, non-dead state; a single-step exit has neither; a revisit after at least one pass needs run-until-waiting mode and leaves the marble alive in a state that is neither dead nor waiting; a revisit with no pass leaves the marble unchanged |
| `Dot.SimulateTick` | dots/dot.py:38-83 | a tick call ends within (number of grid cells + 1) passes, starting at the marble's cell and visiting distinct cells that all exist except an off-grid last one; each exit means what it says (off grid and halt: Dead state; died: dead state; waiting: waiting, not dead; single step: neither; revisit: only in run-until-waiting mode, marble alive and not waiting); if the Dead state is dead, the marble ends dead exactly on an off-grid, halt or died exit; one micro-tick per pass in run-until-waiting mode and none otherwise; a finish notification exactly on halt, once and last; no other notification is sent |
| `TickProperties.SingleStep` | dots/dot.py:82-83 | single-step mode runs exactly one pass over the start cell, never exits by revisit and sends no micro-tick |
| `TickProperties.OffGridDies` | dots/dot.py:58-61 | a call starting off the grid kills the marble silently and changes nothing else: no transition, no lookup, one visited cell, and no notification besides the micro-tick of run-until-waiting mode |
| `TickProperties.HaltEndsProgram` | dots/dot.py:65-70 | landing on `&` ends the call with a halt, the Dead state, an otherwise unchanged marble and a finish notification as the last event |
| `TickProperties.TransitionThenRun` | dots/dot.py:72-83 | on an existing non-halt cell one step sets the state to `next(char)`, applies `run(char)` of that state, and exits dead, waiting or stepped according to that state |
| `TickProperties.UntilWaitingIsRepeatedSteps` | dots/dot.py:47-83 | a run-until-waiting call is the single step plus a micro-tick; unless that step ended the call, it continues from the stepped marble with the start cell recorded as visited |
| `TickProperties.RevisitGuardStopsStationaryState` | dots/dot.py:53-56 | a state that never dies, never waits and never moves makes a run-until-waiting call stop on its second pass, back on the start cell, after two micro-ticks |
| `TickProperties.DeadIsInert` | dots/dot.py:58-77 | if the Dead states absorb (stay dead under `next`, `run` changes nothing), a dead marble stays dead and does not change position, heading, value or stack in a tick |
| `TickLoop.SimulateTickLoop` | dots/dot.py:38-83 | a `while true` loop whose body is one `Iteration`, with its visited list, computes exactly `SimulateTick` and terminates by the shrinking set of unvisited existing cells |

## Left out

- The concrete `State` classes, `DIRECTIONS`, `Pos` and `UP`…`RIGHT` are imported from a module that is not part of this model. States are the abstract `Behaviour` protocol. The heading constants and the scan order up, down, left, right are taken as given.
- `sys.exit(0)` is not a process exit here. It is the exit kind `Halt` of the tick.
- The scheduler and environment that call `simulate_tick` on several marbles are not part of this model. So "no marble advances after a halt" is stated only for one call: `Finish` is the last event of the call that halts.
- The IO callbacks are events appended to a trace. A micro-tick records the marble's position instead of the whole marble, and the error records the spawn coordinates instead of the formatted message.
- `__repr__` and the formatting of the error message are not modelled.
- The marble's `value` is an `int`, not a float. The engine never does arithmetic on it.
- Python truthiness in `id_ or 0`, `value or 0`, `direction or …`, `state if state` and `stack or []` is not modelled. An explicitly passed `0`, zero vector or empty list counts as omitted in the source. Here the optional arguments are `Option`s, and `Some` of those values is kept.
- The explicit `state` argument is a state class applied to the marble in the source. Here it is the resulting state value.
- `char in valid_chars` is a substring test in the source. It equals membership only for one-character strings, and the grid here holds single characters.
- A state's `run` may change only position, heading, value and stack. The model does not cover a `run` that replaces the marble's state or id. It also does not cover a `run` that mutates the state object in place. In the source `isWaiting` is an attribute read after `run`, so `run` could change it; here `isWaiting` is a fixed function of the state value.
- `stack or []` keeps the caller's non-empty list by reference, so the marble and the caller share it. The model copies a sequence. The engine itself never touches the stack again, so only the states' `run` could observe the sharing.
- `TickProperties.DeadIsInert`: the source guarantees this only if the Dead state absorbs, and `DeadState` is not part of this model. So the lemma assumes that as a precondition (`DeadAbsorbing`).
