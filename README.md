# Byte-Crawl Snake: a verified model of the game step

The game is a browser Snake on a `rows` by `cols` grid of 35-pixel blocks.
Every `gameSpeed` milliseconds `render` moves the head one cell in the
current `direction` and then checks three things in order: a wall, the
body, the food. Eating moves the food to a random cell and adds a point.
If the new score passes the high score, the high score becomes the score.
Every fifth point also shortens the tick period by 30 ms, while the period
is above 100. `restartGame` resets everything but the high
score. The arrow keys set the direction. `formatTime` writes the elapsed
seconds as `MM:SS`.

The model has five modules:

- `Board` (`board.dfy`): cells `{x, y}` (row, column), directions, the
  head's one-cell move, and `FindSegment`, the loop that scans the body for
  a self-collision.
- `Keys` (`keys.dfy`): the keydown handler's mapping from `event.key` to a
  direction.
- `TimeFormat` (`time_format.dfy`): `formatTime` built from models of
  `String(n)` and `padStart`, with a parser `ParseTime` as its inverse.
- `Engine` (`engine.dfy`): the game's variables as a value `Game` and
  `render`, `restartGame` and the key handler as functions (`Step`,
  `Restarted`, `AfterKey`). Lemmas state what a tick does, the invariant it
  keeps, the speed ladder in closed form, and how a session of timer ticks,
  key presses and restarts behaves (`Run`).
- `Session` (`session.dfy`): class `SnakeGame`, with the variables as
  fields and `Tick`, `Restart` and `KeyDown` as methods that update them in
  place. Each method's postcondition ties the new state to the matching
  `Engine` function of the old state. `Tick` scans the body with the
  `FindSegment` loop, as `render` does.

The food draw `Math.random` becomes a parameter of `Tick` and `Restart`
that must lie on the board. The board size, which the page computes from
its layout, becomes a constructor parameter.

Two consequences of the code are worth stating, because they are easy to
misread:

- **Eating.** The eating branch puts the head in front (script.js line 90).
  The common move then puts it in front again and pops the tail (lines
  115-116). So the snake grows by one, but its first two segments are the
  same cell and its old tail is gone (`FoodGrowsWithDoubledHead`). The
  cells it covers are the cells of a plain move (`FoodCoversMoveCells`).
  The body's cells therefore need not be distinct, and the invariant does
  not claim they are.
- **Speed floor.** The test `gameSpeed > 100` (line 102) is made before the
  30 ms are taken off. So 120 drops to 90, at score 35, and the period stays
  90 after that (`SpeedFloor`). It is never 100.

## Model

| member | source | states |
|---|---|---|
| `Board.InBounds` | script.js:62 | a cell is on the board exactly when it fails the wall test (x < 0, x >= rows, y < 0 or y >= cols); only a board with at least one row and one column has cells on it |
| `Board.NextHead` | script.js:50-59 | the new head is a different cell in the same row or column, at most one step away in each coordinate; it stays in the same row exactly for left and right |
| `Board.NextHeadIsNeighbour` | script.js:50-59 | the new head is exactly one unit from the old one: left/right move along the column axis (left lowers `y`), up/down along the row axis (up lowers `x`); different directions give different cells; the opposite direction leads back |
| `Board.FindSegment` | script.js:71-81 | the body scan reports a hit exactly when the new head equals some segment, the tail included |
| `Keys.OnKey` | script.js:178-186 | an arrow key selects its own direction whatever the current one is (no reversal check); any other key leaves the direction unchanged |
| `TimeFormat.Decimal` | script.js:128 | `String(n)` is a non-empty digit string, with no leading zero unless it is "0"; it is one character exactly when n < 10 and at most two exactly when n < 100 |
| `TimeFormat.ValueOfDecimal` | script.js:128 | the digits `String(n)` writes denote n |
| `TimeFormat.PadStart` | script.js:128 | `padStart` returns a string of length max(|s|, target) that ends with s and has only fill characters before it |
| `TimeFormat.ValueLeadingZero` | script.js:128 | a leading '0' does not change the value of a digit string |
| `TimeFormat.ValueLeadingZeros` | script.js:128 | any number of leading '0's leaves a digit string's value unchanged |
| `TimeFormat.ValueZeroPadded` | script.js:128 | zero padding keeps a digit string a digit string with the same value |
| `TimeFormat.Field` | script.js:128 | a padded field has at least two digits, exactly two when its number is below 100; from 10 on it is `String(n)` unpadded, so a field longer than two digits has no leading zero |
| `TimeFormat.Join` | script.js:128 | the text is the minutes field, ':', then the two-character seconds field |
| `TimeFormat.FormatTime` | script.js:125-129 | the display has at least 5 characters, with ':' third from the end; it is exactly 5 characters long exactly when seconds < 6000 |
| `TimeFormat.FieldValue` | script.js:128 | a padded field denotes the number it was made from |
| `TimeFormat.ParseJoin` | script.js:128 | reading back a minutes field and a two-digit seconds field below 60 gives minutes*60 + seconds |
| `TimeFormat.ParseFields` | script.js:128 | reading back the joined fields of m and s (s < 60) gives m*60 + s |
| `TimeFormat.ParseFormatTime` | script.js:125-128 | reading the display back gives minutes*60 + seconds field, with the seconds field below 60, and that is the original number of seconds |
| `TimeFormat.ParseTime` | script.js:125-129 | the model's own inverse of `formatTime` (the game has no parser): it accepts only a minutes field of two digits or more with no leading zero, ':', and two digits below 60; the result's minutes and seconds are the values of those fields |
| `TimeFormat.DecimalOfValue` | script.js:128 | a digit string without a leading zero (or the single "0") is what `String` writes for its value |
| `TimeFormat.FieldOfValue` | script.js:128 | a minutes field is what the padded field of its value is |
| `TimeFormat.FormatParseTime` | script.js:125-129 | every text the parser accepts is the display of the time it reads; with `ParseFormatTime`, `ParseTime(t) == Some(s)` exactly when `t == FormatTime(s)` |
| `TimeFormat.FormatTimeInjective` | script.js:125-128 | different times show different text |
| `Engine.PopPush` | script.js:116 | pushing the last segment back onto what `pop` leaves gives the body as it was |
| `Engine.NextSpeed` | script.js:101-103 | after a food tick the period is unchanged or 30 ms shorter, and shorter exactly when the score is a multiple of 5 and the period is above 100 |
| `Engine.SpeedAtScore` | script.js:101-103 | the period reached after n points is a multiple of 30 between 90 and 300 |
| `Engine.Inv` | script.js:46-122 | a state meeting the invariant is on a non-empty board and has a period between 90 and 300 |
| `Engine.Initial` | script.js:16-33 | the page-load state has the first drawn food and is not over, and it meets the invariant on every board of at least 2 by 4 that holds the food |
| `Engine.Restarted` | script.js:152-163 | a restart gives the page-load state with the new food, except that the high score is kept |
| `Engine.AfterKey` | script.js:178-186 | an arrow key sets its own direction; a key press changes at most the direction, and a key that is none of the four arrows changes nothing |
| `Engine.Step` | script.js:46-122 | a tick never shortens the snake |
| `Engine.StepOutcome` | script.js:61-84 | the branch a tick takes depends only on the new head, checked in this order: off the board, then on the body, then on the food, else a plain move (each case stated as an if-and-only-if) |
| `Engine.CollisionFreezes` | script.js:61-81 | a wall or body collision sets the game-over flag and changes nothing else; any other tick leaves the flag and the direction alone |
| `Engine.TailCellCollides` | script.js:72-81 | moving into the cell the tail would leave still ends the game |
| `Engine.MoveShifts` | script.js:114-116 | a plain move makes the snake `[head] + snake[..n-1]` and leaves length, food, score, high score, speed and direction unchanged |
| `Engine.FoodGrowsWithDoubledHead` | script.js:84-116 | after eating: length n+1, segments 0 and 1 are both the new head, the rest is the old body without its last segment, score + 1, food at the drawn cell |
| `Engine.FoodCoversMoveCells` | script.js:89-116 | after eating, the snake covers exactly the cells a plain move would cover |
| `Engine.SpeedRule` | script.js:101-106 | speed changes only on a food tick that makes the score a multiple of 5 while speed > 100, and then by exactly -30; the outcome reports the change to the driver |
| `Engine.HighScoreRule` | script.js:92-99 | after eating, high score = max(old high score, new score); any other tick keeps score and high score; the high score never goes down |
| `Engine.StepKeepsInv` | script.js:46-122 | when the drawn food is on the board, a tick keeps the invariant: non-empty snake on the board, food on the board, 0 <= score <= high score, speed determined by the score |
| `Engine.SpeedClosedForm` | script.js:101-103 | after n points, speed = max(90, 300 - 30*(n/5)) |
| `Engine.SpeedFloor` | script.js:101-103 | speed stays between 90 and 300; it is 90 exactly from score 35 on, it is never 100, and it is 270 at scores 5-9 |
| `Engine.RestartedKeepsHighScore` | script.js:152-163 | restart sets score 0, speed 300, direction down, snake `[(1,3)]`, not game over, keeps the high score, and establishes the invariant |
| `Engine.ReversalEndsGame` | script.js:178-186 | with two or more segments, pressing the arrow opposite to the last move makes the next tick a self-collision |
| `Engine.ReversalAfterFirstFoodSurvives` | script.js:89-116 | with one segment, reversing right after eating hits neither the body nor a wall, because the doubled head has dropped the old head cell |
| `Engine.Deliver` | script.js:61-81 | handling one event (timer tick, key press or restart) keeps the snake non-empty, and a timer tick on a stopped game changes nothing: this stands for the intervals cleared on a collision (lines 63-64 and 74-75) |
| `Engine.Run` | script.js:132-187 | a session of events keeps the snake non-empty |
| `Engine.RunKeepsInv` | script.js:132-187 | across any session of ticks, key presses and restarts whose food draws lie on the board, the invariant holds, the high score never decreases and the speed stays in [90, 300] |
| `Engine.FirstFoodExample` | script.js:84-116 | snake `[(1,3)]` heading right onto food (1,4) becomes `[(1,4),(1,4)]`, with score 1, high score 1, speed unchanged, food at the drawn cell |
| `Session.SnakeGame.constructor` | script.js:15-33 | the initial state: snake `[(1,3)]`, direction down, score and high score 0, speed 300, invariant established |
| `Session.SnakeGame.Tick` | script.js:46-122 | the fields change exactly as `Step` says, and the outcome is the one `Step` returns; the invariant is kept |
| `Session.SnakeGame.Restart` | script.js:146-170 | the fields become `Restarted` of the old state; the invariant is kept |
| `Session.SnakeGame.KeyDown` | script.js:173-187 | only `direction` changes, to `OnKey` of the key and the old direction |

## Left out

- DOM work is not modelled: element lookups, the `blocks` grid, adding and removing the `food` and `fill` classes, the modals and the `innerText` updates. It is presentation only. `Outcome` says which branch a tick took, which decides what the page redraws.
- `setInterval` and `clearInterval` are not modelled. A speed change is reported as `Ate(speedChanged)`. The cleared interval after game over becomes the rule in `Deliver` that a stopped game gets no timer ticks.
- The one-second `timeInSeconds` counter is not modelled, and neither is its reset in `restartGame`. Only the `formatTime` function used to show it is modelled.
- `Math.random` is not modelled. Each food draw is a parameter that must lie on the board, and nothing requires it to miss the snake, just as in the code.
- The board size is not computed from `clientWidth`/`clientHeight` divided by the block size. It is a constructor parameter. Boards with fewer than 2 rows or 4 columns are excluded: there the start cell (1,3) is off the board, and the code's DOM lookup of that cell would fail.
- The start button, `preventDefault` and the event-listener wiring are not modelled. The first `render()` call at page load is just one more timer event in `Run`.
- `TimeFormat.Decimal`: JavaScript's `String` on numbers at or above 10^21 uses exponent notation. That is not modelled, because the seconds counter goes up by one per second.
