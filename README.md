# Laptop survival: a verified model of the game logic

The game is a browser chase game on a 6 × 4 grid of desks. The player keeps a laptop open
to earn score. A lecturer walks the room and shuts the laptop when it reaches the player's
desk, and the player reopens it with five presses of Space. Pressing `r` distracts the
lecturer towards a classmate whose laptop is open. A session lasts 180 time units.

The model covers the single mutable `game` record of `game.js` and the code that changes
it: the desk grid and NPC set-up, `getRandomEmptySpot`, the state-changing part of
`update()` and the keydown handler. It is written twice, at two levels:

- `Rules` (rules.dfy) gives the record as a value, `State`, and each handler as a function
  of it, `Update` and `KeyDown`, built from one function per phase of the handler. The game's
  properties are proved as lemmas about these functions, including the invariant that every
  reachable state keeps.
- `Session.Game` (session.dfy) is the record as a class. The desks are an `array2<bool>` of
  `occupied` flags, and the other fields are updated in place. Each method is proved to take
  the object from `old(Snapshot())` to the state the `Rules` function gives. A ghost set
  `occupied` is kept equal to the grid's flags, so the lemmas about `Rules` apply to the
  object.
- `Grid` (grid.dfy) covers cells, the arrow-key proposal and the row-by-row free-desk list
  that `getRandomEmptySpot` builds. `Steering` (steering.dfy) covers the lecturer's per-axis
  step.
- `Runs` (runs.dfy) covers whole sessions, as sequences of frames and key presses.

Units:
- The source decrements its timers by `1/60` per frame. Here every timer is an integer count
  of frames: catch cooldown 120, distraction 300, speech bubble 180, game clock 10800.
- The score is counted in tenths.
- The lecturer's position is an exact `real`, with speed 0.015 and tolerance 0.1.
- `Math.random()` is the parameter `rand`, in [0, 1), and the chosen index is
  `floor(rand * count)` as in the source. A frame calls `getRandomEmptySpot` at most once:
  the retreat branch needs a closed laptop and the catch needs an open one. So one `rand`
  per frame is enough.

The lecturer's step:
- The two `if`s per axis at game.js:163-166 run in sequence, and the second sees the result
  of the first.
- So a lecturer less than one step below the target steps up, then straight back down, and
  stays where it is. `Steering.StepAxis` states this.
- In exact arithmetic the lecturer therefore does not oscillate. Near a fixed target it
  stops, either on the target or less than one step below it.

## Model

| member | source | states |
|---|---|---|
| Grid.Proposed | game.js:206-211 | an arrow key proposes the neighbouring cell, clamped at each grid edge; any other key proposes the current cell; an in-bounds cell proposes an in-bounds cell |
| Grid.FreeInRow | game.js:58-62 | the free cells of one row, left to right, as the inner loop pushes them; no ensures of its own: `FreeInRowExact` and `FreeInRowDistinct` state its contract |
| Grid.FreeInRows | game.js:57-63 | the free cells of the first rows, row by row, as the nested loops push them; no ensures of its own: `FreeInRowsExact` and `FreeInRowsDistinct` state its contract |
| Grid.FreeCells | game.js:56-63 | the `emptySpots` list of a full scan; no ensures of its own: `FreeCellsExact` and `RandomEmptySpotUniform` state its contract |
| Grid.FreeInRowExact | game.js:58-62 | the cells collected from one row are in bounds and free, and every free cell in the scanned columns is collected |
| Grid.FreeInRowsExact | game.js:57-63 | the cells collected from the scanned rows are in bounds and free, and every free cell of those rows is collected |
| Grid.FreeCellsExact | game.js:55-64 | the full scan lists only free in-bounds desks and every one of them, so it is empty exactly when no desk is free |
| Grid.FreeInRowDistinct | game.js:58-62 | a row scan lists each cell at most once, all in the scanned row and columns |
| Grid.FreeInRowsDistinct | game.js:57-63 | the row-by-row scan lists each cell at most once, all in the scanned rows |
| Grid.RandomIndex | game.js:65 | `floor(rand * n)` is an index below `n` with `i <= rand * n < i + 1` |
| Grid.RandomEmptySpot | game.js:55-66 | the spot is always in bounds; it is free whenever some desk is free; it is `(0,0)` when none is free; it is free exactly when some desk is free |
| Grid.RandomEmptySpotUniform | game.js:64-65 | the free desk at position `i` of the scan is picked exactly when `rand * n` lies in `[i, i + 1)`, so each free desk gets an equal share of [0, 1) |
| Steering.StepAxis | game.js:163-166 | one frame moves an axis by at most one step, never away from the target; at distance one step or more it closes the gap by exactly one step; within one step it stays within one step; just below the target it does not move |
| Steering.ApproachCloses | game.js:163-166 | after `n` frames toward a fixed target the gap has shrunk by `n` steps, or is already below one step |
| Steering.ApproachArrives | game.js:163-166 | after enough frames the lecturer is within one step, and so within the 0.1 tolerance, of a fixed target |
| Rules.Initial | game.js:5-52 | the record as the page sets it up: player at (2,2) with the laptop open, lecturer at (0,0) with no target, clock at 10800 frames, the three NPCs and four taken desks; no ensures of its own: `InitialValid` states its contract |
| Rules.SeatsCount | game.js:44-52 | distinct NPC seats take exactly as many desks as there are NPCs |
| Rules.NpcCellsCount | game.js:44-52 | the NPCs' desks number as many as the NPCs |
| Rules.FirstOpenNpc | game.js:137 | `find` returns nothing exactly when no NPC has an open laptop; otherwise it returns an NPC with an open laptop, and every NPC listed before it has a closed one |
| Rules.InitialValid | game.js:5-52 | the initial record satisfies the invariant, with four desks taken: the player's and one per NPC |
| Rules.OccupiedCount | game.js:42-52 | under the invariant the taken desks are exactly one per character |
| Rules.Update | game.js:132-200 | a frame keeps the speech index in 0..3 and never changes the NPCs, the desks or the player's cell |
| Rules.KeyDown | game.js:203-238 | a key press never changes the NPCs, the speech index, the catch cooldown, the clock, the score or `gameOver` |
| Rules.ChooseTarget | game.js:135-161 | the three-way priority as a value; no ensures of its own: `TargetPriority` states its contract |
| Rules.Steer | game.js:135-166 | target selection and the step; no ensures of its own: `SteerPreservesInv`, `LecturerStepBounded` and `TimersCountDown` state its contract |
| Rules.StepLecturer | game.js:163-166 | one `StepAxis` per axis toward the goal, none without a goal; no ensures of its own: `LecturerStepBounded` states its contract |
| Rules.Tick | game.js:168-177 | the catch cooldown and the speech timer count down, and the text clears at zero; no ensures of its own: `TickPreservesInv`, `CooldownGate` and `TimersCountDown` state its contract |
| Rules.CatchFires | game.js:179-180 | the catch condition; no ensures of its own: `CatchEffects` states it |
| Rules.Catch | game.js:179-191 | the catch, if it fires; no ensures of its own: `CatchEffects` and `CatchPreservesInv` state its contract |
| Rules.Scold | game.js:181-189 | the catch's assignments, with the retreat spot as a parameter; no ensures of its own: `CatchEffects` states its contract |
| Rules.Finish | game.js:194-199 | score and clock; no ensures of its own: `Clock`, `ScoreAccrual` and `FinishPreservesInv` state its contract |
| Rules.Move | game.js:206-217 | the arrow-key move; no ensures of its own: `MoveRule` and `NonArrowKeepsPlayer` state its contract |
| Rules.Mash | game.js:219-229 | the Space branch; no ensures of its own: `SpaceRule` states its contract |
| Rules.Distraction | game.js:231-237 | the `r` branch; no ensures of its own: `DistractRule` states its contract |
| Rules.UpdatePreservesInv | game.js:132-200 | a frame preserves the invariant |
| Rules.SteerPreservesInv | game.js:135-166 | target selection and the step preserve the invariant; a new retreat target is in bounds |
| Rules.TickPreservesInv | game.js:168-177 | the countdowns preserve the invariant; the speech text is cleared when its timer runs out |
| Rules.CatchPreservesInv | game.js:179-191 | the catch preserves the invariant: mash count reset, cooldown and timer in range, rotated speech index in 0..3, and the line on show matches the index |
| Rules.FinishPreservesInv | game.js:194-199 | score and clock keep the invariant; `gameOver` holds exactly when the clock is at zero |
| Rules.GameOverIsInert | game.js:133 | once `gameOver` holds, neither a frame nor a key press (line 204) changes anything |
| Rules.Clock | game.js:195-199 | each frame takes one frame off the clock, and the game ends exactly on the frame that brings it to zero |
| Rules.ScoreAccrual | game.js:194 | a frame adds a tenth exactly when it ends with the laptop open; a frame that adds one started with the laptop open and was not a catch |
| Rules.LecturerStepBounded | game.js:163-166 | whatever the target, each lecturer coordinate moves by at most one step per frame |
| Rules.TargetPriority | game.js:135-161 | a distraction with an open NPC laptop aims at the first such NPC and clears the retreat target; a distraction with none leaves the lecturer standing; an open laptop aims at the player and clears the retreat target; otherwise the lecturer heads for an in-bounds retreat target, which is kept unless it is missing or reached within 0.1 on both axes, and then re-picked as a random free desk |
| Rules.CatchEffects | game.js:179-191 | a catch happens exactly when the lecturer is within 0.1 of the player on both axes, the laptop is open and the cooldown has run out; it closes the laptop, resets the mash count, sets the cooldown to 120 frames and the speech timer to 180, shows the current line, advances the index modulo 4 and picks a retreat spot; without a catch the laptop's state is unchanged |
| Rules.CooldownGate | game.js:168-180 | while the cooldown is at least two frames, a frame cannot catch and takes one frame off it |
| Rules.TimersCountDown | game.js:144-177 | the distraction timer loses one frame per frame until it is out; the speech timer does too, except that a catch restarts it at 180 frames |
| Rules.KeyDownPreservesInv | game.js:203-238 | a key press preserves the invariant, and in particular the mash count stays below five |
| Rules.MoveRule | game.js:206-217 | after a key the player is on the grid; it moves exactly when the proposed desk is free; a move clears the vacated desk and takes the entered one, and no other desk changes; the number of taken desks is preserved; an arrow key changes nothing but the player and the desks |
| Rules.NonArrowKeepsPlayer | game.js:206-237 | a key that is not an arrow leaves the player and the desks unchanged, because the player's own desk is taken; a key that is not an arrow, Space or `r` changes nothing at all |
| Rules.SpaceRule | game.js:219-228 | the whole state after Space: with the laptop open it is unchanged; with it closed only the mash count grows by one, and at five the laptop reopens and the count is reset |
| Rules.DistractRule | game.js:231-237 | `r` sets the distraction timer to 300 frames exactly when it is off cooldown and some NPC's laptop is open; otherwise the state is unchanged |
| Runs.Apply | game.js:132-238 | applying one event keeps the speech index in range |
| Runs.ApplyPreservesInv | game.js:132-238 | one frame or key press preserves the invariant |
| Runs.RunPreservesInv | game.js:132-238 | every state reached by a session satisfies the invariant and has one taken desk per character |
| Runs.FourDesksTaken | game.js:42-52 | from the initial state, exactly four desks are taken throughout any session |
| Runs.GameOverIsFinal | game.js:133 | once the game is over, no session of frames and key presses (line 204) changes the state |
| Runs.ClockRunsDown | game.js:195-197 | after a session the clock has lost one frame per frame event, down to zero, and the game is over exactly when the frame events reached the time left |
| Runs.ScoreBounds | game.js:194 | the score never decreases and grows by at most a tenth per frame |
| Runs.NoCatchDuringCooldown | game.js:168-180 | with the cooldown at `c`, none of the next `c - 1` frames is a catch, whatever keys are pressed in between |
| Runs.MashRecovery | game.js:219-228 | with the laptop closed, `n` Space presses leave it closed with `n` more counted while the count is below five; the press that makes five reopens it and resets the count; the player, score and clock are unchanged |
| Runs.CatchThenRespite | game.js:168-191 | after a catch, none of the next 119 frames is a catch |
| Session.NewDesks | game.js:36-52 | the new grid is 4 × 6, and a desk is taken exactly when it is the player's or an NPC's |
| Session.Game.constructor | game.js:5-52 | the new game is the initial state, with the grid matching its taken desks, and it satisfies the invariant |
| Session.Game.GetRandomEmptySpot | game.js:55-66 | the nested scan collects exactly the free desks row by row, and the spot is the `RandomEmptySpot` of the taken desks |
| Session.Game.Update | game.js:132-200 | one frame takes the record to `Rules.Update` of its old value and keeps it valid |
| Session.Game.SteerLecturer | game.js:135-166 | target selection and the step take the record to `Rules.Steer` of its old value |
| Session.Game.StepToward | game.js:163-166 | the four sequential steps take the record to `Rules.StepLecturer` of its old value |
| Session.Game.CountDown | game.js:168-177 | the countdowns take the record to `Rules.Tick` of its old value |
| Session.Game.CheckCatch | game.js:179-191 | the catch test takes the record to `Rules.Catch` of its old value |
| Session.Game.ScoldPlayer | game.js:181-189 | the catch's assignments take the record to `Rules.Scold` of its old value |
| Session.Game.CountScoreAndTime | game.js:194-199 | score and clock take the record to `Rules.Finish` of its old value |
| Session.Game.KeyDown | game.js:203-238 | one key press takes the record to `Rules.KeyDown` of its old value and keeps it valid |
| Session.Game.MovePlayer | game.js:206-217 | the move updates the two desk flags and the player together, so the grid and the taken desks stay matched, and takes the record to `Rules.Move` of its old value |
| Session.Game.Relocate | game.js:213-216 | the vacated desk's flag is cleared and the entered desk's set, so the grid and the taken desks stay matched, the taken desks lose the old cell and gain the new one, and only the player's cell changes otherwise |
| Session.Game.MashSpace | game.js:219-229 | the Space branch takes the record to `Rules.Mash` of its old value |
| Session.Game.TriggerDistraction | game.js:231-237 | the `r` branch takes the record to `Rules.Distraction` of its old value |

## Left out

- Drawing (`drawScene`, game.js:69-129) is left out. It covers the canvas, the emoji, the `Date.now()` bounce and the `Math.sqrt` panic distance. It is rendering only.
- The DOM message writes and the `setTimeout` that clears one (game.js:146, 198, 224-227, 235) are left out. They are output only, and no game logic reads them.
- The `requestAnimationFrame` loop (game.js:241-248) is left out. It is platform scheduling, and `Runs` models a session as an arbitrary sequence of frames and key presses instead.
- `Math.random()` is not modelled as randomness. It is the caller-supplied `rand` in [0, 1).
- Floating point is left out.
  - Timers are exact integer frame counts, and the lecturer's position is an exact real.
  - The source subtracts `1/60` from doubles, and its accumulated rounding can shift a timer's expiry by one frame. The model does not capture that.
  - The model also does not capture the rounding of `+= 0.015` and `+= 0.1`.
- The `hasLaptop` desk field (game.js:39, 51) is left out. It is written but never read.
- NPC laptops are never changed by game.js. The model's `Session.Game.npcs` is a `const`, and `Rules.Update` and `Rules.KeyDown` prove it unchanged.
- Steering.StepAxis: with exact reals the lecturer stops on the target or less than one step below it. With doubles the lecturer might instead end within one step on either side. The bound of one step per frame holds either way.
