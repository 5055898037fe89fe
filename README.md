# Candy match-3 engine, modelled in Dafny

This project models the game logic of a browser match-3 game ("candy crush"
style). It covers two source files:

- `src/utils/gameUtils.ts` holds the board functions: run detection with
  special-candy candidates (`findSpecialMatches`), the blast set of a special
  candy (`activateSpecialCandy`), clean-up of a freshly dealt board
  (`removeInitialMatches`), and the small cell/name helpers.
- `src/hooks/useGame.ts` holds the state updaters of the game hook: gravity
  and refill (`applyGravityAndFill`, `forceCompleteGrid`), the swap a player
  attempts (`attemptSwap`), the cascade `step` loop of `processCascade`, the
  timer tick and the end-of-game updater.

## How the model is built

- A board is an `n` by `n` sequence of rows of `Tile = Option<int>`, where
  `None` is the source's `null`. The special-candy overlay is a board of
  `Special(kind, color)` records.
- `GRID_SIZE`, the number of colours and `POINTS_PER_BLOCK` come from a
  configuration file that is not part of this model. They are the parameters
  `n` (at least 1), `nColors` and `points`.
- Colour draws (`Math.random()` scaled to the palette) come from an oracle
  `roll: nat -> int` with a cursor `next`. `ValidDice(roll, nColors)` says
  every draw is a palette colour.
- The cascade has no iteration cap in the source. It runs here with a `fuel`
  bound, and results are stated for runs that finish.

Code that changes state step by step is modelled with imperative Dafny:

- `FindSpecialMatches` fills run tables by scanning with a counter.
- `RemoveInitialMatches` works in place on an `array2`. Its pass, row and
  cell loops are the methods `Pass`, `PassRow` and `CheckCell`.
- `ForceCompleteGrid` and `ApplyGravityAndFill` are methods with loops over
  copied boards.
- The cascade `Step` and `AttemptSwap` are methods without loops of their
  own. They call the methods above on copied boards.
- `RunCascade` is the loop of `Step` calls.

Each of these methods except `RunCascade` is proved equal to a specification
function, or states its result directly. `RunCascade` states properties of
its result instead (see "## Left out"). The promised properties are then proved as lemmas about
those functions.

Module layout:

- `Types`: the shared data.
- `Runs`: maximal runs in a line.
- `Matches` and `MatchFacts`: `findSpecialMatches`.
- `Activation`: `activateSpecialCandy`.
- `InitialMatches`: `removeInitialMatches`.
- `Gravity`: `forceCompleteGrid` and `applyGravityAndFill`.
- `Cascade`: the `step` loop.
- `Helpers`: the small helpers.
- `Game`: the hook's updaters.

Three behaviours of the code differ from the usual match-3 rules, and the
model keeps them:

- Unlike the usual rule, which places a special candy once per run, the code
  emits a special-candy candidate at every cell of a qualifying run.
- A cell can get both a striped and a wrapped candidate. Only a color-bomb
  excludes the others.
- Special candies promoted during a cascade step are written onto cells that
  the same step clears, so gravity never carries them. The step discards them
  (`Cascade.PromotionsDiscarded`).

## Model

| member | source | states |
|---|---|---|
| Runs.LineRuns | src/utils/gameUtils.ts:69-91 | the counting scan of one line stores, at every cell, the length of the maximal run of equal non-null values through it when that length is 3 or more, and 0 otherwise |
| Runs.RunIsMaximal | src/utils/gameUtils.ts:72-84 | the run the scan measures cannot be extended at either end |
| Runs.RunUniform | src/utils/gameUtils.ts:72-76 | every cell of a run holds the same value, and a run of two or more holds no null |
| Runs.RunLengthIffTriple | src/utils/gameUtils.ts:78-82 | a cell's run is 3 or longer exactly when some window of three equal non-null values covers the cell |
| Matches.FindSpecialMatches | src/utils/gameUtils.ts:48-157 | the returned matches and candidates are exactly the board's match list and candidate list, in the source's row-major order |
| Matches.CollectMatches | src/utils/gameUtils.ts:118-125 | the marking loop lists, in row-major order, exactly the cells whose horizontal or vertical run mark is 3 or more: its result is the flattened match table `BoardMatches` |
| Matches.CollectCandidates | src/utils/gameUtils.ts:127-148 | the candidate loop lists, in row-major order, each cell's candidates: its result is the flattened candidate table `BoardCandidates` |
| Matches.PushCandidates | src/utils/gameUtils.ts:130-146 | the loop body for one cell appends exactly that cell's candidates `CellCandidates(cell, h, v)` to the list: a color-bomb alone for a run of 5 or more (the `continue`), otherwise striped-h, striped-v and wrapped in that order as the run marks earn them |
| Matches.CellCandidateRules | src/utils/gameUtils.ts:128-148 | a cell with a run of 5 or more gets only a color-bomb; otherwise it gets striped-h for a horizontal run of exactly 4, striped-v for a vertical run of exactly 4, and wrapped when both runs are 3 or more; no candidate appears twice |
| MatchFacts.MatchListFacts | src/utils/gameUtils.ts:118-154 | `matches` lists each cell at most once, and lists a cell exactly when it is on the board and its horizontal or vertical run is 3 or longer |
| MatchFacts.MatchedMeansTriple | src/utils/gameUtils.ts:72-125 | a cell is matched exactly when a horizontal or vertical window of three equal non-null values covers it, so a null cell is never matched |
| MatchFacts.NoMatchesIffNoTriple | src/utils/gameUtils.ts:48-157 | `findSpecialMatches` finds no match exactly when the board has no window of three equal non-null values |
| MatchFacts.CandidateListFacts | src/utils/gameUtils.ts:128-148 | the candidate list has no duplicate and holds exactly the on-board cell/kind pairs that the rules earn |
| MatchFacts.CandidateRules | src/utils/gameUtils.ts:131-146 | for one cell: color-bomb exactly for a run of 5 or more, and then no other kind; striped-h or striped-v for an exact 4 with no run of 5; wrapped where two runs of 3 or more cross; nothing for a lone run of 3; every candidate cell is also matched |
| Activation.ActivateSpecialCandy | src/utils/gameUtils.ts:163-212 | the cells returned are those of the blast set, in the source's order, and the boards are left as they are |
| Activation.WrappedBlast | src/utils/gameUtils.ts:187-193 | the nested loop lists the 3 by 3 block around the candy, clipped to the board, row by row |
| Activation.ColorSweep | src/utils/gameUtils.ts:196-204 | the sweep lists every cell of the given colour, row by row |
| Activation.ActivationFacts | src/utils/gameUtils.ts:174-209 | a normal candy clears nothing; striped-h clears exactly the n cells of its row; striped-v exactly the n cells of its column; wrapped the clipped 3 by 3 block; color-bomb exactly the cells of the target colour (or of its own colour when no target is given, and none when that is null); jelly its own cell; no cell is listed twice |
| InitialMatches.RemoveInitialMatches | src/utils/gameUtils.ts:217-249 | the board and draw cursor left are those of `passes` successive passes (`Passes`), 1 to 50, where every pass but the last found a triple and the last found none unless it was the 50th; when it stops before 50, no window of three equal non-null values is left and no match remains; a board without such a window is left unchanged after one pass; null cells stay null and non-null cells stay non-null; with a valid oracle every changed cell holds a palette colour |
| InitialMatches.Pass | src/utils/gameUtils.ts:223-246 | one pass leaves the board and cursor of the row-by-row sweep (`BoardSweep`); it reports a match exactly when it drew a colour, which happens exactly when some window it checked, on the board as it then stood, was a triple; when it reports none the board is unchanged and has no triple |
| InitialMatches.PassRow | src/utils/gameUtils.ts:226-245 | the cell loop of one row leaves the board and cursor of the left-to-right sweep (`RowSweep`), and reports a match exactly when one was already reported or it drew |
| InitialMatches.CheckCell | src/utils/gameUtils.ts:227-244 | the horizontal then the vertical test at one cell (`CellCheck`); only that cell can change, and it keeps its value or holds the last of at most two draws; it reports a hit exactly when it drew, which is exactly when the cell was not clear on the board it was given |
| InitialMatches.RerollIfTriple | src/utils/gameUtils.ts:227-244 | one window test (`Reroll`): the cell is rerolled with the next draw exactly when the window of three starting at it, along the row or down the column, holds equal non-null values, and then the rerolled cell was a candy; otherwise nothing changes |
| InitialMatches.CellCheckFacts | src/utils/gameUtils.ts:227-244 | the two tests at a cell change only that cell, to its old value or the last of at most two draws; a draw is made exactly when a window is a triple, so a clear cell is left alone with no draw |
| InitialMatches.CellCheckKeepsHoles | src/utils/gameUtils.ts:227-244 | the cell tests never fill or empty a hole, and with a valid oracle they write palette colours |
| InitialMatches.RowSweepDraws | src/utils/gameUtils.ts:226-245 | the cursor only advances over a row, and a hit is reported exactly when it advanced |
| InitialMatches.RowSweepQuiet | src/utils/gameUtils.ts:226-245 | a row that reports no hit is unchanged and all its checked cells were clear; on a board with no triple a row reports none |
| InitialMatches.RowSweepKeepsHoles | src/utils/gameUtils.ts:226-245 | a row sweep keeps the holes and, with a valid oracle, writes palette colours |
| InitialMatches.BoardSweepDraws | src/utils/gameUtils.ts:225-246 | the cursor only advances over a pass, and a hit is reported exactly when it advanced |
| InitialMatches.BoardSweepQuiet | src/utils/gameUtils.ts:225-246 | a pass that reports no hit is unchanged and every cell was clear; on a board with no triple a pass reports none |
| InitialMatches.BoardSweepKeepsHoles | src/utils/gameUtils.ts:225-246 | a pass keeps the holes and, with a valid oracle, writes palette colours |
| InitialMatches.PassesDraws | src/utils/gameUtils.ts:221-247 | over several passes the cursor only advances, and passes that drew nothing changed nothing |
| InitialMatches.PassesKeepsHoles | src/utils/gameUtils.ts:221-247 | over several passes the holes stay, and with a valid oracle every changed cell holds a palette colour |
| InitialMatches.PassesSettle | src/utils/gameUtils.ts:221-247 | a pass that finds nothing leaves a board with no triple, and on a board with no triple the first pass finds nothing and changes nothing |
| Gravity.ForceCompleteGrid | src/hooks/useGame.ts:104-117 | the copy-and-fill loops return the completed boards: each null cell, in row-major order, takes the next draw and a normal special record of that colour; one draw is used per null cell |
| Gravity.ForceCompleteFacts | src/hooks/useGame.ts:104-117 | the completed board has no null; non-null cells keep their value and special record; filled cells get a normal record of their colour, a palette colour under a valid oracle; the fill is the identity on a board with no null |
| Gravity.DistinctDraws | src/hooks/useGame.ts:108-113 | two different null cells take different draws, in row-major order, all below the number of nulls |
| Gravity.SettleColumn | src/hooks/useGame.ts:122-148 | the three loops for one column leave the other columns as they were and give this column the settled pieces, using one draw per null cell of the column |
| Gravity.ApplyGravityAndFill | src/hooks/useGame.ts:120-151 | the boards returned are the settled boards, with no null cell, and the input boards are not changed |
| Gravity.ExistingCount | src/hooks/useGame.ts:124-129 | the collected pieces and the null cells of a column together account for all its rows |
| Gravity.CandyFalls | src/hooks/useGame.ts:123-139 | a non-null candy falls by the number of null cells below it and keeps its own special record |
| Gravity.FallKeepsOrder | src/hooks/useGame.ts:123-139 | two candies of one column keep their vertical order after the fall |
| Gravity.SettledColumnShape | src/hooks/useGame.ts:130-147 | in a column with k null cells the top k cells get fresh draws with normal records (palette colours under a valid oracle); every other cell holds a candy that fell from the same column |
| Gravity.FullColumnStays | src/hooks/useGame.ts:123-139 | a column without null cells settles into itself |
| Gravity.SettledIgnoresHoles | src/hooks/useGame.ts:126-128 | the special records of null cells have no effect on the settled boards |
| Cascade.PromoteCandidates | src/hooks/useGame.ts:176-181 | writing the candidates in order gives each candidate cell the kind of its last candidate, with the colour of the cell |
| Cascade.ClearMatches | src/hooks/useGame.ts:183-186 | every matched cell becomes null, the other cells keep their values, and the score grows by points times the number of matches |
| Cascade.CascadeStep | src/hooks/useGame.ts:176-190 | promoting, clearing and settling produce the step's boards, and the score grows by points per match |
| Cascade.CandidatesOnCandies | src/utils/gameUtils.ts:128-148 | every candidate cell is on the board and holds a candy |
| Cascade.PromotionsDiscarded | src/hooks/useGame.ts:176-190 | the specials a step promotes have no effect: the step's boards equal those of settling the cleared board with the old overlay |
| Cascade.StepKeepsNormal | src/hooks/useGame.ts:176-190 | a step never turns an all-normal overlay into one with a special candy |
| Cascade.CompletionFacts | src/hooks/useGame.ts:163-166 | completing the board at the end of a cascade leaves no null cell and adds no special candy, and it changes nothing on a full board |
| Cascade.Step | src/hooks/useGame.ts:161-193 | one call of `step` finishes exactly when no match is found, then with the completed boards and the same score; otherwise it returns the step's boards with the score raised by points per match; either way the board is full, the draw cursor only advances, and an all-normal overlay stays all normal |
| Cascade.RunCascade | src/hooks/useGame.ts:154-194 | a finished cascade leaves a full board; unless it stopped at once on a board with holes, no window of three remains; the score never goes down and, for positive points, grows exactly when the first step finds matches; a first step without matches finishes with the completed boards, which on a full board are the boards given |
| Helpers.CellsEqual | src/utils/gameUtils.ts:16-18 | two cells are equal exactly when they are the same cell |
| Helpers.CellsEqualReflexiveSymmetric | src/utils/gameUtils.ts:16-18 | `cellsEqual` is reflexive and symmetric |
| Helpers.AreAdjacent | src/utils/gameUtils.ts:21-25 | two cells are adjacent exactly when their Manhattan distance is 1, so a cell is never adjacent to itself |
| Helpers.AdjacentSymmetric | src/utils/gameUtils.ts:21-25 | adjacency is symmetric |
| Helpers.AdjacentNeighbours | src/utils/gameUtils.ts:21-25 | the cells adjacent to a cell are exactly its four orthogonal neighbours |
| Helpers.GetCellFromPosition | src/utils/gameUtils.ts:28-35 | the result is either none or an on-board cell whose column and row are the floors of x and y divided by the cell size; it is none exactly when either index is off the board |
| Helpers.PositionInsideCell | src/utils/gameUtils.ts:28-35 | measured in cell sides, the point lies inside the cell returned |
| Helpers.Masked | src/utils/gameUtils.ts:39-40 | the first four UTF-16 code units of the string (all of it when shorter), then `***` |
| Helpers.MaskName | src/utils/gameUtils.ts:38-42 | a non-empty username is shown masked; otherwise a non-empty phone number is; otherwise the anonymous label; an empty string counts as absent |
| Helpers.MaskNameReveals | src/utils/gameUtils.ts:38-42 | the result is the anonymous label, or one to four leading UTF-16 code units of the username or phone number followed by `***` |
| Helpers.SurrogatePairsCountTwice | src/utils/gameUtils.ts:39 | a name of three characters outside the basic plane shows only the first two, since each takes two code units |
| Game.TimerTick | src/hooks/useGame.ts:77-84 | the tick changes nothing unless the game is active and not paused; otherwise it takes a second off, and at 0 or less it sets the clock to 0 and ends the game; no other field changes |
| Game.TicksCountDown | src/hooks/useGame.ts:77-84 | a running game with T seconds left still runs with T - k seconds after k < T ticks |
| Game.TimeRunsOut | src/hooks/useGame.ts:77-84 | after exactly T ticks the game is over with the clock at 0, and further ticks change nothing |
| Game.EndGame | src/hooks/useGame.ts:89-93 | the game stops and the current score is appended to the history; nothing else changes |
| Game.EndGameStopsClock | src/hooks/useGame.ts:77-93 | the timer tick does nothing after the game has ended |
| Game.Swapped | src/hooks/useGame.ts:203-209 | the two cells exchange their entries and every other cell keeps its own |
| Game.SwapTwiceRestores | src/hooks/useGame.ts:213-220 | swapping back restores the boards exactly |
| Game.SwapSymmetric | src/hooks/useGame.ts:203-209 | the order of the two cells does not matter |
| Game.SwapCells | src/hooks/useGame.ts:203-209 | the in-place exchange on a copy gives the swapped board |
| Game.AttemptSwap | src/hooks/useGame.ts:196-236 | nothing changes while animating or for non-adjacent cells; a swap is kept exactly when the swapped board has a match, and then grid and special records are swapped, one move is used, selection and drag are cleared and a cascade is due; otherwise the previous state is returned |
| Game.KeptSwapMovesTwoCells | src/hooks/useGame.ts:201-209 | a kept swap changes no cell other than the two swapped ones |
| Game.CascadeFrom | src/hooks/useGame.ts:154-194 | the callback reads boards and score from the state it was created with and applies its updaters to the current state: that state is marked animating; when the loop finishes, grid, specials and score are replaced by the cascade's, animating is cleared and the falling list emptied, with a full board, a score that never falls below the one read and grows exactly when the first step matched (for positive points), and no window of three left unless it stopped at once on a board with holes; boards read full and without matches are written back unchanged |
| Game.ProcessCascade | src/hooks/useGame.ts:154-194 | the same, for a callback created with the current state: a full board without matches is left as it was |
| Game.MoveAsWritten | src/hooks/useGame.ts:196-236 | a swap either changes nothing or uses one move, exactly when the swapped board has a match; on a full board without matches the scheduled cascade restores the pre-swap grid, specials and score while the move stays used |
| Game.SwapLostOnSettledBoard | src/hooks/useGame.ts:196-236 | a full 3 by 3 board without matches and an adjacent pair whose swap makes a match and changes the board, so the as-written move loses a real swap |
| Game.Move | src/hooks/useGame.ts:196-236 | a swap either changes nothing or uses one move; when its cascade, run on the swapped boards, finishes, the board is full with no window of three, and with positive points the score has grown |

## Findings

| source | as written | input that shows it | evidently intended | confidence | as-written member | corrected member |
|---|---|---|---|---|---|---|
| src/hooks/useGame.ts:224 | the kept swap schedules the `processCascade` of the render that created `attemptSwap`; that callback reads the pre-swap grid, specials and score (lines 155-157) and its final updater (lines 165-172) writes them back onto the swapped state; `attemptSwap` is rebuilt only when `processCascade` or `animating` changes (line 236), so the closure it schedules is the one from before the swap | the board rows `0 1 2`, `1 2 0`, `0 0 1` and the swap of cells (1,2) and (2,2): the bottom row becomes `0 0 0`, but the cascade sees the old board, finds no match and restores it, with no points and one move used | the cascade runs on the swapped boards and clears the match it made | not executed | Game.MoveAsWritten, Game.SwapLostOnSettledBoard | Game.Move |

## Left out

- `lightenColor` (src/utils/gameUtils.ts:4-13) is a colour-rendering helper built on floating-point rounding.
- UI components, network calls, i18n and platform bindings hold no game logic. The user-profile fetch, the score submission in `endGame` and the `alert` in `startGame` are I/O.
- `initializeGrid` and `initGame` are not modelled. They deal a random board and then call `removeInitialMatches`, which is modelled.
- The `setTimeout`/`setInterval` scheduling is not modelled. Each updater is modelled as one call, and the cascade as a loop of `step` calls.
- Game.AttemptSwap: reads `animating` from the same state it updates. The source reads it from the render-time closure, which is a React artefact.
- Game.ProcessCascade: runs the callback created with the state it updates. `Game.CascadeFrom` covers a callback created with an older state, which is what the swap schedules (see Findings). Updates from other updaters that land while the cascade animates (timer ticks) are not interleaved.
- Game.Move: models the cascade the swap evidently intends, on the swapped boards. The code as written is `Game.MoveAsWritten`.
- Cascade.RunCascade: runs with a `fuel` bound because the source loop has no cap. A run that runs out of fuel returns `OutOfFuel`. The result of a finished run is stated through per-step properties and loop invariants, not as a closed function of the input boards.
- `Math.random()` is replaced by the oracle `roll` with a cursor. The model does not state that draws are random or uniform, only which draw each cell takes.
- `POINTS_PER_BLOCK`, `GRID_SIZE` and the colour palette come from a configuration module that is not part of this model. They are parameters.
- Activation.ActivateSpecialCandy: requires an on-board cell. Off the board the source behaves in two ways that are not modelled: an off-board row makes `specialCandies[row]` undefined, so indexing it by `col` throws a TypeError (src/utils/gameUtils.ts:172); an off-board column makes `special` undefined, and the `!special` test returns an empty list (line 174).
- JavaScript `undefined` entries (`prev.gameHistory || []`) have no counterpart: the history is always a sequence.
- Numbers are unbounded integers. The source's JavaScript numbers are doubles, but scores, moves and coordinates stay far below 2^53.
- Helpers.GetCellFromPosition: divides exactly, in real arithmetic. The source floors a quotient rounded to a double, so a point within one rounding error of a cell edge can land in the next cell: for x = 0.5 and a cell size of 0.1 the double quotient is 5, giving column 5, while the exact quotient is just under 5 for the doubles written 0.5 and 0.1, giving column 4. A zero cell size returns none, which matches the source, where division by zero yields an infinity or NaN that fails every range test. The model does not represent infinities or NaN.
- Helpers.PositionInsideCell: holds for the exact quotient only. The source's rounded quotient can place a point lying just before a cell edge in the following cell.
