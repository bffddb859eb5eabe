# greedy-snake: the game-state machine in Dafny

A model of the terminal snake game in `index.js`, without any terminal
output. The snake is an immutable record: its body cells, head first; its
target length `len`; the held direction `dir`; the optional food cell; the
last removed tail cell `discard`; and the occupancy marks `coords`. The
source keeps the marks in a module-wide table, row `y` to column `x`. Here
they are a `map<int, set<int>>` owned by the state.

- `Geometry` holds cells, the terminal size, the four direction codes
  {0, 1, 3, 4} and the head movement `Move` (the source's `Head`). It also
  holds what the asymmetric wrap-around implies: which moves undo each other,
  how many moves make a full lap, and when the head cannot move at all.
- `Grid` holds `setCoord`, `clearCoord` and the collision probe, related to
  the set of marked cells `Marked`.
- `Keys` holds the `setDir` guard and the key mapping of `onkeypress`.
- `Game` holds the start-up state, one tick `Crawl`, the eating step `OnEat`,
  the grid part of `draw`, key handling, and a whole game as a list of ticks
  and key events (`Play`). It also holds the invariants that every tick and
  every game preserves.

A tick returns `Moved`, `Ate` or `GameOver(score)`. The synchronous `eat`
event becomes `Ate`. Calling `over` becomes `GameOver` with the score
`len - 1`. The random food cell is an input of `Crawl`, restricted to the
range `getRandomInt` produces.

Four points of the code's behaviour are easy to misread; the model follows the code:

- The food cell is marked in the grid when it is placed (`index.js:64`).
  So the marks mirror the body plus the food, not the body alone.
- Over the codes {0, 1, 3, 4}, the numeric guard `|n - dir| > 1` rejects
  exactly two requests: the current direction and its exact reversal. It
  never blocks a perpendicular turn (`TurnAcceptedExactly`).
- The constructor builds the first head by moving the start position
  (0, 2) one step right, so the snake starts at (1, 2). It then marks
  (0, 2), the position before the move (`index.js:35-36`). The head starts
  out unmarked, and the (0, 2) mark stays for the whole game. So the marks
  do not simply mirror the body; `MarksAsBuilt` states what they do mirror.
  This is listed under "## Findings".
- With no key pressed, the snake reaches column `columns - 1` after
  `columns - 2` ticks, and the next tick wraps it back to column 1
  (`TicksFromStart`, from the head moves of `StartColumnAfter`).

## Model

| member | source | states |
|---|---|---|
| Geometry.Move | index.js:232-267 | a move changes only the coordinate of its own axis, by one step or by wrapping: leftward to `columns`, rightward to 1, upward to `rows`, downward to 2; any code outside {0,1,3,4} leaves the cell as it is; the head never leaves the playing area |
| Geometry.MoveN | index.js:232-267 | repeated moves in one direction keep the other coordinate and stay in the playing area |
| Geometry.StuckExactly | index.js:248-265 | a move leaves the head where it was exactly when moving right from column 1 on a 2-column terminal, or down from row 2 on a 3-row terminal |
| Geometry.UndoFailsAtOneLine | index.js:242-265 | a move followed by its reversal returns to the start everywhere except one line: column `columns-1` going right, column `columns` going left, row `rows-1` going down, row `rows` going up |
| Geometry.RightIsCyclic | index.js:248-253 | after k rightward moves from a column in 1..columns-1, the column is (x-1+k) mod (columns-1) + 1 |
| Geometry.LeftIsCyclic | index.js:242-247 | after k leftward moves from a column in 1..columns, the column is (x-1-k) mod columns + 1 |
| Geometry.DownIsCyclic | index.js:260-265 | after k downward moves from a row in 2..rows-1, the row is (y-2+k) mod (rows-2) + 2 |
| Geometry.UpIsCyclic | index.js:254-259 | after k upward moves from a row in 2..rows, the row is (y-2-k) mod (rows-1) + 2 |
| Geometry.HorizontalLaps | index.js:242-253 | a horizontal lap takes columns-1 moves going right and columns moves going left |
| Geometry.VerticalLaps | index.js:254-265 | a vertical lap takes rows-2 moves going down and rows-1 moves going up |
| Grid.SetCoord | index.js:275-280 | marking adds exactly the given cell to the marked set and creates its row |
| Grid.ClearCoord | index.js:282-285 | clearing removes exactly the given cell from the marked set and creates no row |
| Grid.IsMarked | index.js:76 | the collision probe answers true exactly for the marked cells |
| Keys.SetDir | index.js:120-126 | the held direction becomes either the request or stays unchanged, and stays one of the four codes |
| Keys.TurnAcceptedExactly | index.js:120-126 | among the four codes a request is accepted exactly when it is not the reversal of the held direction, and ignored exactly when it is the same direction or the reversal |
| Keys.SetDirIdempotent | index.js:120-126 | repeating a request changes nothing further |
| Keys.TwoRequestsReverse | index.js:120-126 | two requests before the next tick (a perpendicular turn, then the reversal) reverse the snake |
| Keys.KeyAction | index.js:197-223 | steering actions carry one of the four codes and come only from the eight names left/h, up/k, right/l, down/j; ctrl+c, and only ctrl+c, quits; an event with no key information, and any other name except `c`, is ignored |
| Keys.ModifierAndAliases | index.js:200-221 | ctrl matters only for `c`, and h/l/k/j act exactly like left/right/up/down |
| Game.Init | index.js:20-37 | the start state has one body cell, (1, 2): the start position moved once to the right; the only mark is on (0, 2), the position before the move; the state keeps the as-built grid invariant but not the intended one; direction right, no food, score 0 |
| Game.StartColumnAfter | index.js:32-35 | k rightward moves of the start head take it to column k + 1 while k <= columns-2, and move columns-1 brings it back to the start cell (1, 2) |
| Game.InitMarkingHead | index.js:35-36 | the start state with the mark on the head instead of (0, 2) differs from the built one only in its marks, and satisfies the intended grid invariant |
| Game.Crawl | index.js:54-89 | a tick eats exactly when the new head is the food cell (placed first if missing); it ends the game with score len-1 exactly when the new head is another marked cell; otherwise the head is pushed, the tail is popped only when the body has reached `len`, and the marks change by the food placed, the head and the popped tail |
| Game.OnEat | index.js:179-190 | eating pushes the food cell as head, raises `len` and the score by one, uses up the food, and leaves body-plus-food cells unchanged |
| Game.Draw | index.js:96-113 | drawing unmarks the last removed tail cell, if any, and changes nothing else |
| Game.HandleKey | index.js:197-223 | ctrl+c ends the game with the current score; every other key changes at most the direction, and keeps it one of the four codes; a steering key sets the direction to the requested code exactly when that code is not the reversal of the held one, and otherwise leaves it |
| Game.CrawlKeepsWellformed | index.js:82-86 | a tick that does not end the game keeps the body length equal to `len`, so a non-eating tick always pops the old tail into `discard` |
| Game.UnpoppedTickMarks | index.js:79-105 | a moving tick that pops nothing marks the food placed and the head, and unmarks the previously removed tail again |
| Game.EatingGrowsByOne | index.js:179-190 | eating adds exactly one body cell and one score point, removes no tail and unmarks nothing |
| Game.FoodPersists | index.js:59-66 | food is created only when none exists, stays unchanged on every non-eating tick, and becomes the head when eaten |
| Game.CrawlStaysOnBoard | index.js:232-267 | the body never leaves the playing area, so it never enters the score row |
| Game.CrawlKeepsMirror | index.js:73-105 | from states satisfying the intended grid invariant (those reached from `InitMarkingHead`): when food is placed off the body, a surviving tick keeps the marks equal to the body cells plus the food, keeps the body free of repeated cells, and keeps the food off the body |
| Game.AteKeepsMirror | index.js:179-190 | from states satisfying the intended grid invariant (those reached from `InitMarkingHead`): an eating tick keeps the grid invariant: the food's mark becomes the new head's |
| Game.MovedKeepsMirror | index.js:79-105 | from states satisfying the intended grid invariant (those reached from `InitMarkingHead`): a moving tick keeps the grid invariant: the head is marked, the popped tail unmarked, and the body stays free of repeats |
| Game.CollisionIsBodyHit | index.js:73-79 | from states satisfying the intended grid invariant (those reached from `InitMarkingHead`): under the grid invariant, the game ends exactly when the new head is a body cell; the food's own mark never ends it |
| Game.TailIsFatal | index.js:76-105 | from states satisfying the intended grid invariant (those reached from `InitMarkingHead`): moving onto the current tail cell ends the game, because the tail is unmarked only after the collision test |
| Game.FoodUnderBodyRepeatsCell | index.js:59-75 | food placed under the body is eaten when reached and leaves a repeated cell in the body |
| Game.TwoColumnsStandStill | index.js:248-253 | on a 2-column terminal, when the first food is not placed on the start cell (1, 2), the first tick moves the head onto its own unmarked start cell, and every later tick leaves the state unchanged, so the game never ends by itself |
| Game.TwoColumnsFoodAtStart | index.js:59-79 | on a 2-column terminal, when the first food is placed on the start cell, the first tick eats it and leaves (1, 2) twice in the body; when the second food is not also placed on (1, 2), the next tick ends the game with score 1, and when it is, the next tick eats it again |
| Game.CollisionAsBuilt | index.js:73-79 | under the as-built grid invariant, a tick ends the game exactly when the new head is a body cell other than the start cell, or the start cell while it is marked |
| Game.TailAsBuilt | index.js:76-105 | moving onto the current tail ends the game exactly when the tail is not the start cell or the start cell is marked |
| Game.CrawlKeepsMarksAsBuilt | index.js:54-105 | with food placed off the body, a surviving tick keeps the as-built grid invariant |
| Game.AteKeepsMarksAsBuilt | index.js:179-190 | with food placed off the body, from a state keeping the as-built invariant: an eating tick keeps the as-built grid invariant |
| Game.MovedKeepsMarksAsBuilt | index.js:73-105 | with food placed off the body, from a state keeping the as-built invariant: a moving tick keeps the as-built grid invariant |
| Game.MovedMarksOffStart | index.js:79-105 | with food placed off the body, from a state keeping the as-built invariant: after a moving tick, the marks other than the start cell are exactly the body cells, the food and (0, 2) |
| Game.MovedStartCell | index.js:79-105 | with food placed off the body, from a state keeping the as-built invariant: after a moving tick, the start cell is marked only if it is in the body or is the food, is marked if it is the food or occurs twice, and occurs at most twice |
| Game.MovedRepeats | index.js:79-105 | with food placed off the body, from a state keeping the as-built invariant: after a moving tick, no cell but the start cell occurs twice in the body |
| Game.MovedFoodOff | index.js:59-105 | with food placed off the body, from a state keeping the as-built invariant: after a moving tick, the food lies off the body and no body cell lies in column 0 |
| Game.Play | bin/cli.js:17-19 | a game of ticks and key events always has a non-empty body while it runs |
| Game.PlayKeepsShape | index.js:82-86 | from any well-formed state, every game keeps body length equal to `len` and the snake on the board; a finished game's score is the start length minus one plus the food eaten, and a running game's `len` is the start `len` plus the food eaten |
| Game.PlayKeepsMirror | index.js:59-105 | from states satisfying the intended grid invariant (those reached from `InitMarkingHead`): when every food cell is placed off the body, every game keeps the grid invariant |
| Game.PlayKeepsMarksAsBuilt | index.js:54-105 | when every food cell is placed off the body, every game keeps the as-built grid invariant |
| Game.GameFromStart | index.js:20-105 | every game from the built start state keeps the body at the target length and on the board, and, with food placed off the body, keeps the as-built grid invariant |
| Game.GameFromMarkedStart | index.js:35-36 | every game from the start state with the head marked keeps the intended grid invariant when food is placed off the body |
| Game.UpThenLeft | index.js:120-126 | pressing up and then left while heading right leaves the snake heading left, with nothing else changed |
| Game.TicksFollowMoveN | index.js:54-89 | with no key pressed, the head after n ticks is where n moves in the held direction take it, whether or not food is eaten |
| Game.TicksFromStart | index.js:32-35 | with no key pressed, k ticks from start-up take the head to column k + 1 while k <= columns-2, and tick columns-1 brings it back to (1, 2) |
| Game.StartCellPassedOver | index.js:35-36 | on a 10-by-10 terminal, eating at (2, 2), pressing up and left and ticking again moves the head onto its tail (1, 2); the game goes on and (1, 2) is left unmarked |
| Game.MarkedStartCatchesTail | index.js:35-36 | with the head marked at start, the same events end the game with score 1 |

## Left out

- Terminal output: cursor moves, the written glyphs, the ANSI escape strings
  of the score line, and clearing the screen. They are I/O. Only the grid
  mutation of `draw` is kept.
- Raw-mode stdin, `keypress` wiring and the event emitter are async plumbing.
  A key event is an input of `HandleKey`, and `eat` is handled inside
  `Crawl`.
- `process.exit` and the `console.log` output of `over` are process actions.
  Game over is the `GameOver`/`Over` result carrying the score.
- `Math.random` in `getRandomInt` is floating-point randomness. The food
  cell is an argument restricted to columns 1..columns-1 and rows 2..rows-1.
- `stdout.columns` and `stdout.rows` are environment values. They are the
  `Board` argument. Properties that need a usable terminal assume
  `columns >= 2` and `rows >= 3`.
- The source's separate `head` field is not kept. It is always the same
  object as the first body cell, so the model reads the head from `body[0]`.
- The character argument `ch` of `onkeypress` is unused by the source.
- `bin/cli.js` is out of scope: argument parsing, number coercion and the
  usage error. The interval loop appears only as the order of events given
  to `Play`.
- A terminal resize between ticks: `columns` and `rows` are read on
  every tick, but the model fixes one `Board` for a whole game.
- Game.CrawlKeepsMarksAsBuilt assumes food is placed off the body, as
  `CrawlKeepsMirror` does below.
- Game.CollisionAsBuilt assumes food is placed off the body, as above.
- Game.TailAsBuilt assumes food is placed off the body, as above.
- Game.PlayKeepsMarksAsBuilt assumes every food cell is placed off the body.
- Game.GameFromStart assumes every food cell is placed off the body.
- Game.CrawlKeepsMirror assumes food is placed off the body. The source
  does not check this; `FoodUnderBodyRepeatsCell` shows what goes wrong
  without it. It also holds only in states reached from the intended start
  `InitMarkingHead`: the start state as built never satisfies its grid
  invariant, and `CrawlKeepsMarksAsBuilt` states what holds there instead.
- Game.AteKeepsMirror holds only from the intended start, as above.
- Game.MovedKeepsMirror holds only from the intended start, as above.
- Game.CollisionIsBodyHit assumes food is placed off the body, and holds
  only from the intended start; `CollisionAsBuilt` covers the built start.
- Game.TailIsFatal assumes food is placed off the body, and holds only from
  the intended start; `TailAsBuilt` covers the built start.
- Game.PlayKeepsMirror assumes every food cell is placed off the body, and
  holds only from the intended start; `PlayKeepsMarksAsBuilt` covers the
  built start.
- Game.Crawl requires a non-empty body. The source reads the head from a
  separate field that always equals the first body cell.

## Findings

| source | as written | input that shows it | evidently intended | confidence | as-written member | corrected member |
|---|---|---|---|---|---|---|
| index.js:35-36 | the constructor marks (0, 2), the position before the first head is moved, so the head (1, 2) starts unmarked while (0, 2) stays marked for good | a 10-by-10 terminal: food at (2, 2) is eaten, up and left are pressed, the next tick moves the head onto its own tail (1, 2) and the game goes on | the first head is marked, so the marks mirror the body plus the food, and entering the tail ends the game | high, not executed | Game.StartCellPassedOver | Game.MarkedStartCatchesTail |
