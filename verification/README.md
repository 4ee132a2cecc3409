# Shoots and Ladders — a Dafny model of the game logic

This project models the game logic of a browser Snakes-and-Ladders game
("Shoots and Ladders"): a board of `GAMEBOARD_SIZE` (n) squares drawn in rows
of `ROW_LENGTH` (l), up to fifteen randomly placed ladders (a ladder climbs
when its end is above its start and falls otherwise), players that advance
one round at a time by dice rolls, a per-player move history, and a new
player who joins whenever someone reaches the last square.

Modules, one per concern of the source:

- `Models` (models.dfy): the value types of `src/models/Player.tsx`
  (`Player`, `Move`, `MoveType`) and the `{ start, end }` ladder record.
- `Text` (text.dfy): decimal rendering of numbers as template literals print
  them (`Player 3`, `ladder-color-4`) and the move-log formatter `padPos`.
- `Ladders` (ladders.dfy): the endpoint search `getNewValidLadderPosition`
  (a bounded loop), `generateLadders` (a loop pushing into a list, then an
  in-place sort of that list, here an insertion sort on an `array`), and
  ladder lookup (`find`). `Pushed` (src/App.tsx:57-63) is the list in push
  order, `SortDesc` (src/App.tsx:64) the stable sort by descending start,
  and `Generated` their composition; the lemmas in the table state their
  properties.
- `Game` (game.dfy): the session. The per-player updaters that the source
  hands to `setPlayers` are functions (`StepForward`, `Walk`, `RecordRoll`,
  `TakeLadder`, `Turn`, `Spawn`, `Settle`); `GameSession` is a class whose
  methods (`UpdatePlayer`, `MoveThePlayerForward`, `CreateNewPlayer`,
  `RollDice`, …) apply them in the order the source awaits them. Each
  method's postcondition ties the new roster to these functions, and the
  lemmas state what one turn and one round do: `WalkEffect` characterises
  `Walk` (src/App.tsx:124-133), `TurnEffect` characterises `Turn`
  (src/App.tsx:147-180), and `ArrivalCountPositive`, `RoundPlayers` and
  `RoundFinishesArrivals` characterise `Settle` (src/App.tsx:188-199).
- `Grid` (grid.dfy): the serpentine cell numbering, `getCellColor` (a loop,
  so a method), `getLadderSymbol` (`LadderSymbol`, src/components/Grid.tsx:36-70,
  characterised by `LadderSymbolPriority`), and the cells with the players on
  them.

Random draws are parameters: every endpoint search receives its own block
of 20 draws in `[1, n]` (`CandidateDraws`), every roster slot its die in
`[1, 6]`, and a spawned player its colour (an opaque string). The board
size and row length are parameters, with `l > 0` and `l` dividing `n` for
the board, and `n >= 3` for a game.

Two consequences of how the program places ladders:

- Ladder endpoints are not always in `[2, n-1]`, two ladders can share an
  end, and two ladders can share the start -1. An endpoint search that fails
  returns -1, a candidate is dropped only when its two endpoints are equal,
  and both endpoints are drawn against the existing starts
  (`Ladders.FailedEndMayBeKept`, `Ladders.EndsMayCoincide`,
  `Ladders.SentinelStartsMayCoincide`, `Ladders.SentinelStartsKept`). So no
  two ladders share a start other than -1. A player who lands on the start
  of a ladder ending at -1 is sent off the board
  (`Game.FailedEndSendsPlayerOffBoard`).
- Positions stay in `[1, n]` whenever every ladder end is on the board
  (`Game.RoundKeepsOnBoard`).

## Model

| member | source | states |
|---|---|---|
| `Text.NatToStringRoundTrip` | src/App.tsx:100 | the decimal numeral of a number (as in `Player ${id}`) reads back as that number and has no leading zero |
| `Text.PadPos` | src/App.tsx:42-46 | the result ends with the number's numeral and is padded with spaces only; 100 is unpadded, numbers below 10 get two spaces, others one |
| `Text.PadPosWidth` | src/App.tsx:42-46 | every position from 0 to 100 is printed exactly three characters wide |
| `Ladders.FirstAcceptable` | src/App.tsx:29-39 | the result is -1 exactly when no draw is acceptable (not 1, not n, not an existing key); otherwise it is an acceptable draw, and it is the first acceptable one |
| `Ladders.NewValidLadderPosition` | src/App.tsx:27-40 | the bounded search loop over the 20 draws returns exactly the first acceptable draw, or -1 |
| `Ladders.FindIndex` | src/App.tsx:171 | the index of the first ladder whose selected endpoint equals the position, or the list length when there is none |
| `Ladders.Find` | src/App.tsx:171 | `find` yields nothing exactly when no ladder has that endpoint; otherwise it yields the first ladder of the list with that endpoint (the one at `FindIndex`) |
| `Ladders.InsertIntoPrefix` | src/App.tsx:64 | one insertion pass in place places `a[i]` into the sorted prefix as a stable insertion, leaving the rest of the array unchanged |
| `Ladders.SortByStartDescending` | src/App.tsx:64 | the in-place sort leaves the array equal to the stable descending-start sort of its old contents |
| `Ladders.GenerateLadders` | src/App.tsx:55-66 | fifteen candidates are tried and the sorted kept list is returned: at most 15 ladders, ordered by non-increasing start, every ladder well placed, no two ladders sharing a start other than -1 |
| `Ladders.PushedWellFormed` | src/App.tsx:57-63 | in push order: at most one ladder per candidate, `start != end`, each endpoint in `[2, n-1]` or -1, non-sentinel starts pairwise distinct, each non-sentinel end differs from the starts pushed before it |
| `Ladders.InsertAdds` | src/App.tsx:64 | a stable insertion adds exactly the inserted ladder (multiset) |
| `Ladders.InsertSorts` | src/App.tsx:64 | inserting into a list sorted by non-increasing start keeps it sorted |
| `Ladders.SortDescSortsAndPermutes` | src/App.tsx:64 | the sort returns a permutation of its input ordered by non-increasing start |
| `Ladders.InsertKeepsUniqueStarts` | src/App.tsx:64 | inserting a ladder whose start is new or -1 keeps the starts other than -1 distinct |
| `Ladders.SortDescKeepsUniqueStarts` | src/App.tsx:64 | sorting keeps non-sentinel starts distinct |
| `Ladders.GeneratedLaddersWellFormed` | src/App.tsx:57-65 | the generated list has at most one ladder per candidate, is sorted by non-increasing start, is a permutation of the push order, and every ladder has distinct in-range-or-sentinel endpoints; no two ladders share a start other than -1 |
| `Ladders.EndsMayCoincide` | src/App.tsx:58-59 | because the end is drawn against starts only, concrete draws on a 10-square board keep ladders (5, 7) and (6, 7), which share an end |
| `Ladders.SentinelStartsMayCoincide` | src/App.tsx:58-62 | concrete draws on a 10-square board push ladders (-1, 5) and (-1, 6): a start search that fails all 20 draws yields -1 while the end search succeeds, so two kept ladders share the start -1 |
| `Ladders.SentinelStartsKept` | src/App.tsx:55-66 | the sorted list of those draws still holds both ladders starting at -1, in push order |
| `Ladders.FailedEndMayBeKept` | src/App.tsx:58-62 | concrete draws on a 4-square board keep ladder (3, -1): an end search that fails all 20 draws yields -1, and only `start != end` is checked |
| `Game.Spawn` | src/App.tsx:94-106 | the roster is kept as a prefix; one player is appended exactly when nobody is on square 1, with id and name from the new length, position 1, zero counters, empty history, not finished; afterwards square 1 is occupied |
| `Game.GameSession.constructor` | src/App.tsx:11-25 | a new game has the single player "Player 1" on square 1, generated ladders, and automatic mode off |
| `Game.GameSession.UpdatePlayer` | src/App.tsx:109-121 | the updater is applied to the entry at the index only; an index outside the roster changes nothing |
| `Game.GameSession.MoveThePlayerForward` | src/App.tsx:123-134 | the player at the index is replaced by its walk of `roll` single steps, and no other entry changes |
| `Game.GameSession.CreateNewPlayer` | src/App.tsx:93-107 | the roster becomes `Spawn` of the old roster |
| `Game.GameSession.TakeTurn` | src/App.tsx:145-180 | the player at the index is replaced by its `Turn` with this die, against the session's ladders |
| `Game.GameSession.FinishArrivals` | src/App.tsx:188-199 | arrivals are marked finished, then `createNewPlayer` runs once per arrival |
| `Game.GameSession.RollDice` | src/App.tsx:137-201 | the roster after the call is the round result of the roster at the call: unfinished snapshot players take turns in roster order, then the settling pass and spawns; the round leaves the session settled |
| `Game.GameSession.ToggleAutomaticMode` | src/App.tsx:210 | the automatic-mode flag is flipped |
| `Game.GameSession.AutomaticTick` | src/App.tsx:73-76 | the guard of `runAutomaticMode`, read on the live session: a tick plays one round exactly when automatic mode is on and the previous round has settled, and changes nothing otherwise |
| `Game.WalkEffect` | src/App.tsx:124-133 | after `k >= 1` steps the position is `min(position + k, n)` and the step marker is `diceRolls + 1`; nothing else changes |
| `Game.WalkStaysOnBoard` | src/App.tsx:124-133 | from a square of the board every intermediate position stays in `[1, n]`, and no step moves backwards |
| `Game.TurnEffect` | src/App.tsx:147-180 | a turn counts the roll once and appends one dice move (from the pre-roll square to `min(pos + roll, n)`, numbered `diceRolls + 1`); if the first ladder starting at the unclamped `pos + roll` exists, the player ends on its end and one ladder move with the same number and no die is appended; otherwise nothing more changes |
| `Game.TurnKeepsOnBoard` | src/App.tsx:156-180 | when every ladder ends on the board, a turn from the board ends on the board |
| `Game.SpawnTimesOnce` | src/App.tsx:188-199 | calling `createNewPlayer` once per arrival has the effect of a single call |
| `Game.ArrivalCountPositive` | src/App.tsx:190 | the settling pass finishes someone exactly when some unfinished player stands on the last square |
| `Game.RoundRoster` | src/App.tsx:143-199 | a round keeps every slot and adds at most one player; it adds one exactly when some unfinished player ends its turn on square n and nobody stands on square 1 after the moves; the newcomer is a fresh player and has not rolled |
| `Game.RoundPlayers` | src/App.tsx:143-199 | players finished before the round are left exactly as they were; every other snapshot player rolls exactly once, keeps its history as a prefix, gains one or two moves, and is finished exactly when it ends on square n |
| `Game.RoundFinishesArrivals` | src/App.tsx:188-199 | after a round every player on the last square is finished |
| `Game.RoundKeepsOnBoard` | src/App.tsx:143-199 | when all players and all ladder ends are on the board, every player is still on the board after the round |
| `Game.RoundKeepsMoveNumbers` | src/App.tsx:162-179 | a round keeps every recorded move number at most its player's roll count |
| `Game.FailedEndSendsPlayerOffBoard` | src/App.tsx:171-178 | the ladders of `FailedEndMayBeKept`, once sorted, send the first player rolling 2 to position -1 |
| `Grid.CellPosition` | src/components/Grid.tsx:76-79 | every cell of the grid shows a position in `[1, n]` |
| `Grid.CellOf` | src/components/Grid.tsx:73-79 | every position in `[1, n]` is shown on some cell of the grid |
| `Grid.CellPositionInjective` | src/components/Grid.tsx:73-79 | no position is shown on two cells, so the numbering is a bijection onto `1..n` |
| `Grid.RowDirection` | src/components/Grid.tsx:77-79 | positions grow left to right on even adjusted rows and right to left on odd ones |
| `Grid.BoardEnds` | src/components/Grid.tsx:73-79 | the bottom display row shows `1..l` from left to right, and the top display row shows the last block `n-l+1..n` |
| `Grid.FirstTouching` | src/components/Grid.tsx:12-16 | the index of the first ladder with an endpoint at the position, or the list length |
| `Grid.CellColor` | src/components/Grid.tsx:11-18 | the result is `""` exactly when no ladder touches the position, otherwise `ladder-color-i` for the first touching ladder `i` |
| `Grid.LadderSymbolPriority` | src/components/Grid.tsx:36-70 | the first ladder starting at the position decides first (up-right green bold if it climbs, down-right red bold if it falls); failing that, the first ladder ending there (blue or purple); otherwise plain black |
| `Grid.MarkedIffColored` | src/components/Grid.tsx:11-18 | for ladders whose endpoints differ, a cell's marker is bold exactly when `getCellColor` gives it a ladder colour |
| `Grid.PlayersAt` | src/components/Grid.tsx:31 | the filter keeps exactly the roster players standing on the position |
| `Grid.PlayersAtConcat` | src/components/Grid.tsx:31 | the filter keeps roster order |
| `Grid.CellsShowRoster` | src/components/Grid.tsx:21-33 | initial cell `k` shows position `k+1`; after a refresh it holds exactly the players on that position, and every player on the board appears on the cell of its position |

## Left out

- Animation pacing: the `setTimeout` delays, the `isRolling` and `diceRoll`
  display state (src/App.tsx:125, 151-155). The model performs the steps in
  sequence, so every intermediate position of a walk is a state of `Walk`.
- The re-entrancy guard `if (isRolling) return false` (src/App.tsx:141): it
  depends on React closure and batching; rounds in the model never overlap.
- The self-rescheduling automatic-mode timer (src/App.tsx:70-88): only its
  guard is modelled, as `AutomaticTick`.
- AutomaticTick: reads the live session, whereas `runAutomaticMode` is
  created by an effect that re-runs only when `automaticMode` changes
  (src/App.tsx:70-88), so in the program every tick tests the
  `finishedMoving` and `automaticMode` captured when the mode was switched
  on and runs the `rollDice` captured then, with that moment's `players`
  and `ladders` (src/App.tsx:143-156). The model does not capture the
  consequences: players spawned later never roll in automatic mode, players
  who finish later keep rolling, `fromPosition` and `expectedPosition` come
  from the captured positions, and a mode switched on during a round never
  plays.
- `Math.random` (src/App.tsx:30, 96, 150): replaced by caller-supplied draws.
  Each endpoint search receives its own 20 draws and ignores those after the
  accepted one, where the source would not draw them at all.
- The HSL colour of a new player (src/App.tsx:96): an opaque string parameter.
- CSS variable setup, all JSX rendering, `console.log`, the
  `JSON.parse(JSON.stringify(...))` copy of the history (src/App.tsx:165)
  and the in-place `player.moveHistory.push(move)` of the ladder move
  (src/App.tsx:177), which appends to the array the previous state object
  shares (both are a fresh appended sequence here; the final roster is the
  same), and
  the `cells.find` lookup inside the render (src/components/Grid.tsx:80).
- React state batching: the updaters passed to `setPlayers` are applied in
  the order they are queued; the `createNewPlayer` updaters queued by the
  settling pass run after it.
- `padPos(100)` returns the number 100 rather than a string; the model
  returns its rendering "100".
- JavaScript numbers are modelled as unbounded integers; all values here are
  small integers.
