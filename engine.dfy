/** The game state and one step of the simulation, as values. `Step` is the
    body of `render` without its DOM and timer calls, `Restarted` is
    `restartGame`, `AfterKey` is the keyboard handler; the lemmas below state
    what these promise, and the class in module Session is proved to follow them. */
module Engine {
  import opened Board
  import opened Keys

  const InitialSpeed: int := 300
  const SpeedStep: int := 30
  const SpeedThreshold: int := 100
  const StartCell: Cell := Cell(1, 3)
  const StartDirection: Direction := Down

  /** What one tick did, for the presentation layer: the game ended against a
      wall or against the body, the food was eaten (and whether the game sped
      up, so that the driver re-arms its timer), or the snake just moved. */
  datatype Outcome = WallHit | SelfHit | Ate(speedChanged: bool) | Moved

  /** The game's top-level variables. `gameOver` stands for the stopped timers
      and the game-over modal. */
  datatype Game = Game(
    snake: seq<Cell>,
    direction: Direction,
    food: Cell,
    score: int,
    highScore: int,
    gameSpeed: int,
    gameOver: bool)

  function Max(a: int, b: int): int
  {
    if a >= b then a else b
  }

  /** `Array.prototype.pop` on the body: the last segment goes. */
  function Pop(s: seq<Cell>): (r: seq<Cell>)
    requires |s| >= 1
    ensures |r| == |s| - 1 && forall i :: 0 <= i < |r| ==> r[i] == s[i]
  {
    s[..|s| - 1]
  }

  /** Pushing the popped segment back gives the body as it was. */
  lemma PopPush(s: seq<Cell>)
    requires |s| >= 1
    ensures Pop(s) + [s[|s| - 1]] == s
  {
  }

  /** The tick period after a food tick that brought the score to `score`:
      either unchanged or 30 ms shorter, and shorter exactly at a multiple of
      five while the period is above 100. */
  function NextSpeed(score: int, speed: int): (r: int)
    ensures r == speed || r == speed - SpeedStep
    ensures r != speed <==> score % 5 == 0 && speed > SpeedThreshold
  {
    if score % 5 == 0 && speed > SpeedThreshold then speed - SpeedStep else speed
  }

  /** One call of `render`, with `newFood` for the random food draw. In the
      food branch the head is put in front twice (once on eating, once by the
      common move) and the common move then drops the last segment. */
  function Step(g: Game, rows: int, cols: int, newFood: Cell): (r: (Game, Outcome))
    requires |g.snake| >= 1
    ensures |r.0.snake| >= |g.snake|
  {
    var head := NextHead(g.snake[0], g.direction);
    if !InBounds(head, rows, cols) then
      (g.(gameOver := true), WallHit)
    else if head in g.snake then
      (g.(gameOver := true), SelfHit)
    else if head == g.food then
      var grown := [head] + g.snake;
      var score := g.score + 1;
      var high := if score > g.highScore then score else g.highScore;
      var speed := NextSpeed(score, g.gameSpeed);
      (g.(snake := Pop([head] + grown), food := newFood, score := score,
          highScore := high, gameSpeed := speed),
       Ate(speed != g.gameSpeed))
    else
      (g.(snake := Pop([head] + g.snake)), Moved)
  }

  /** The state the page starts in, before the first `render`: it meets the
      invariant on every board that holds the start cell and the food. */
  function Initial(firstFood: Cell): (r: Game)
    ensures r.food == firstFood && !r.gameOver
    ensures forall rows, cols :: rows >= 2 && cols >= 4 && InBounds(firstFood, rows, cols) ==>
              Inv(r, rows, cols)
  {
    Game([StartCell], StartDirection, firstFood, 0, 0, InitialSpeed, false)
  }

  /** `restartGame`: everything back to its starting value except `highScore`. */
  function Restarted(g: Game, newFood: Cell): (r: Game)
    ensures r == Initial(newFood).(highScore := g.highScore)
  {
    Game([StartCell], StartDirection, newFood, 0, g.highScore, InitialSpeed, false)
  }

  /** The keydown handler applied to the game: an arrow key sets its own
      direction, only the direction can change, and a key that is no arrow
      changes nothing. */
  function AfterKey(g: Game, key: string): (r: Game)
    ensures forall e :: key == KeyName(e) ==> r.direction == e
    ensures r == g.(direction := r.direction)
    ensures (forall e :: key != KeyName(e)) ==> r == g
  {
    g.(direction := OnKey(key, g.direction))
  }

  /** The tick period once `n` foods have been eaten since the last restart:
      a multiple of 30 between 90 and 300. */
  function SpeedAtScore(n: nat): (r: int)
    ensures 90 <= r <= InitialSpeed && r % SpeedStep == 0
  {
    if n == 0 then InitialSpeed else NextSpeed(n, SpeedAtScore(n - 1))
  }

  /** What holds of every state the game reaches: a non-empty snake and the
      food on the board, a score no larger than the high score, and the speed
      that the score determines; so the board is not empty and the period
      lies between 90 and 300. */
  ghost function Inv(g: Game, rows: int, cols: int): (b: bool)
    ensures b ==> 0 < rows && 0 < cols && 90 <= g.gameSpeed <= InitialSpeed
  {
    |g.snake| >= 1 &&
    (forall i :: 0 <= i < |g.snake| ==> InBounds(g.snake[i], rows, cols)) &&
    InBounds(g.food, rows, cols) &&
    0 <= g.score <= g.highScore &&
    g.gameSpeed == SpeedAtScore(g.score)
  }

  // ---------------------------------------------------------------------------
  // What a tick does

  /** Which branch a tick takes is decided by the new head alone, in the order
      wall, body (every segment, the tail included), food, plain move. */
  lemma StepOutcome(g: Game, rows: int, cols: int, newFood: Cell)
    requires |g.snake| >= 1
    ensures var head := NextHead(g.snake[0], g.direction);
            var o := Step(g, rows, cols, newFood).1;
            (o == WallHit <==> !InBounds(head, rows, cols)) &&
            (o == SelfHit <==> InBounds(head, rows, cols) && head in g.snake) &&
            (o.Ate? <==> InBounds(head, rows, cols) && head !in g.snake && head == g.food) &&
            (o == Moved <==> InBounds(head, rows, cols) && head !in g.snake && head != g.food)
  {
  }

  /** A collision ends the game and changes nothing else: not the body, not
      the food, the score, the high score or the speed. A tick that does not
      collide leaves the game running and keeps the direction. */
  lemma CollisionFreezes(g: Game, rows: int, cols: int, newFood: Cell)
    requires |g.snake| >= 1
    ensures var (g', o) := Step(g, rows, cols, newFood);
            (o == WallHit || o == SelfHit ==> g' == g.(gameOver := true)) &&
            (o == Moved || o.Ate? ==> g'.gameOver == g.gameOver && g'.direction == g.direction)
  {
  }

  /** The tail cell counts as body: a head that moves into the cell the tail
      is about to leave still ends the game. */
  lemma TailCellCollides(g: Game, rows: int, cols: int, newFood: Cell)
    requires |g.snake| >= 2
    requires NextHead(g.snake[0], g.direction) == g.snake[|g.snake| - 1]
    requires InBounds(g.snake[|g.snake| - 1], rows, cols)
    ensures Step(g, rows, cols, newFood) == (g.(gameOver := true), SelfHit)
  {
  }

  /** A plain move puts the new head in front and drops the last segment;
      length, food, score, high score and speed stay. */
  lemma MoveShifts(g: Game, rows: int, cols: int, newFood: Cell)
    requires |g.snake| >= 1
    requires Step(g, rows, cols, newFood).1 == Moved
    ensures var g' := Step(g, rows, cols, newFood).0;
            var head := NextHead(g.snake[0], g.direction);
            g'.snake == [head] + g.snake[..|g.snake| - 1] &&
            |g'.snake| == |g.snake| &&
            g' == g.(snake := g'.snake)
  {
  }

  /** Eating grows the snake by exactly one, but the new head occupies the
      first two places and the old tail is gone; the score goes up by one and
      the food moves to the drawn cell. */
  lemma FoodGrowsWithDoubledHead(g: Game, rows: int, cols: int, newFood: Cell)
    requires |g.snake| >= 1
    requires Step(g, rows, cols, newFood).1.Ate?
    ensures var g' := Step(g, rows, cols, newFood).0;
            var head := NextHead(g.snake[0], g.direction);
            |g'.snake| == |g.snake| + 1 &&
            g'.snake[0] == head && g'.snake[1] == head &&
            g'.snake[2..] == g.snake[..|g.snake| - 1] &&
            g'.score == g.score + 1 && g'.food == newFood
  {
    var g' := Step(g, rows, cols, newFood).0;
    var head := NextHead(g.snake[0], g.direction);
    assert g'.snake == Pop([head] + ([head] + g.snake));
  }

  /** So a food tick covers the same cells as a plain move would: the growth
      shows only once the doubled segment reaches the end of the body. */
  lemma FoodCoversMoveCells(g: Game, rows: int, cols: int, newFood: Cell)
    requires |g.snake| >= 1
    requires Step(g, rows, cols, newFood).1.Ate?
    ensures var g' := Step(g, rows, cols, newFood).0;
            var head := NextHead(g.snake[0], g.direction);
            forall c :: c in g'.snake <==> c in [head] + g.snake[..|g.snake| - 1]
  {
    FoodGrowsWithDoubledHead(g, rows, cols, newFood);
    var g' := Step(g, rows, cols, newFood).0;
    var head := NextHead(g.snake[0], g.direction);
    assert g'.snake == [head] + ([head] + g.snake[..|g.snake| - 1]);
  }

  /** The speed changes only on a food tick that brings the score to a
      multiple of five while the period is above 100, and then by exactly 30;
      the outcome reports it. */
  lemma SpeedRule(g: Game, rows: int, cols: int, newFood: Cell)
    requires |g.snake| >= 1
    ensures var (g', o) := Step(g, rows, cols, newFood);
            (g'.gameSpeed != g.gameSpeed <==>
               o.Ate? && g'.score % 5 == 0 && g.gameSpeed > SpeedThreshold) &&
            (g'.gameSpeed != g.gameSpeed ==> g'.gameSpeed == g.gameSpeed - SpeedStep) &&
            (o.Ate? ==> (o.speedChanged <==> g'.gameSpeed != g.gameSpeed))
  {
  }

  /** After a food tick the high score is the larger of the old high score and
      the new score; any other tick leaves score and high score alone. */
  lemma HighScoreRule(g: Game, rows: int, cols: int, newFood: Cell)
    requires |g.snake| >= 1
    ensures var (g', o) := Step(g, rows, cols, newFood);
            (o.Ate? ==> g'.highScore == Max(g.highScore, g'.score)) &&
            (!o.Ate? ==> g'.highScore == g.highScore && g'.score == g.score) &&
            g'.highScore >= g.highScore
  {
  }

  /** A tick keeps the invariant when the drawn food is on the board. */
  lemma StepKeepsInv(g: Game, rows: int, cols: int, newFood: Cell)
    requires Inv(g, rows, cols)
    requires InBounds(newFood, rows, cols)
    ensures Inv(Step(g, rows, cols, newFood).0, rows, cols)
  {
    var (g', o) := Step(g, rows, cols, newFood);
    var head := NextHead(g.snake[0], g.direction);
    if o == Moved {
      assert g'.snake == [head] + g.snake[..|g.snake| - 1];
    } else if o.Ate? {
      assert g'.snake == [head, head] + g.snake[..|g.snake| - 1];
    }
  }

  // ---------------------------------------------------------------------------
  // The speed ladder

  /** The speed as a function of the score: 300, less 30 for every five
      points, but never below 90. */
  lemma {:induction false} SpeedClosedForm(n: nat)
    ensures SpeedAtScore(n) == Max(90, InitialSpeed - SpeedStep * (n / 5))
  {
    if n > 0 {
      SpeedClosedForm(n - 1);
      if n % 5 == 0 {
        assert (n - 1) / 5 == n / 5 - 1;
      } else {
        assert (n - 1) / 5 == n / 5;
      }
    }
  }

  /** The ramp: 270 at five points, and the last step, taken at 35 points
      from 120, ends at 90, below the 100 of the test; from there on the speed
      stays put. */
  lemma SpeedFloor(n: nat)
    ensures 90 <= SpeedAtScore(n) <= InitialSpeed
    ensures SpeedAtScore(n) == 90 <==> n >= 35
    ensures SpeedAtScore(n) != SpeedThreshold
    ensures 5 <= n < 10 ==> SpeedAtScore(n) == 270
  {
    SpeedClosedForm(n);
    var k := n / 5;
    assert k >= 7 <==> n >= 35;
    assert 5 <= n < 10 ==> k == 1;
    assert SpeedAtScore(n) == Max(90, InitialSpeed - SpeedStep * k);
  }

  // ---------------------------------------------------------------------------
  // Keys, restart and reversing

  /** `restartGame` starts a fresh game that keeps the high score, and the
      result satisfies the invariant whenever the start cell is on the board. */
  lemma RestartedKeepsHighScore(g: Game, rows: int, cols: int, newFood: Cell)
    requires Inv(g, rows, cols)
    requires rows >= 2 && cols >= 4 && InBounds(newFood, rows, cols)
    ensures var g' := Restarted(g, newFood);
            g'.score == 0 && g'.gameSpeed == InitialSpeed && g'.direction == Down &&
            g'.snake == [Cell(1, 3)] && g'.highScore == g.highScore && !g'.gameOver &&
            Inv(g', rows, cols)
  {
  }

  /** Since there is no reversal check, pressing the arrow opposite to the
      last move of a snake of two or more segments makes the next tick run
      into the body. */
  lemma ReversalEndsGame(g: Game, rows: int, cols: int, newFood: Cell, nextFood: Cell)
    requires Inv(g, rows, cols) && |g.snake| >= 2
    requires Step(g, rows, cols, newFood).1 == Moved || Step(g, rows, cols, newFood).1.Ate?
    ensures var g' := AfterKey(Step(g, rows, cols, newFood).0, KeyName(Opposite(g.direction)));
            Step(g', rows, cols, nextFood).1 == SelfHit
  {
    var (g1, o) := Step(g, rows, cols, newFood);
    var head := NextHead(g.snake[0], g.direction);
    NextHeadIsNeighbour(g.snake[0], g.direction);
    var g' := AfterKey(g1, KeyName(Opposite(g.direction)));
    assert g'.direction == Opposite(g.direction);
    assert g'.snake[0] == head by {
      if o.Ate? { FoodGrowsWithDoubledHead(g, rows, cols, newFood); }
    }
    if o == Moved {
      assert g'.snake[1] == g.snake[0];
    } else {
      FoodGrowsWithDoubledHead(g, rows, cols, newFood);
      assert g'.snake[2] == g.snake[0];
    }
  }

  /** With a one-segment snake the doubled head drops the old head cell, so
      reversing right after the first food does not collide. */
  lemma ReversalAfterFirstFoodSurvives(g: Game, rows: int, cols: int, newFood: Cell, nextFood: Cell)
    requires Inv(g, rows, cols) && |g.snake| == 1
    requires Step(g, rows, cols, newFood).1.Ate?
    ensures var g' := AfterKey(Step(g, rows, cols, newFood).0, KeyName(Opposite(g.direction)));
            Step(g', rows, cols, nextFood).1 != SelfHit &&
            Step(g', rows, cols, nextFood).1 != WallHit
  {
    var head := NextHead(g.snake[0], g.direction);
    NextHeadIsNeighbour(g.snake[0], g.direction);
    FoodGrowsWithDoubledHead(g, rows, cols, newFood);
    var g' := AfterKey(Step(g, rows, cols, newFood).0, KeyName(Opposite(g.direction)));
    assert g'.snake == [head, head];
    assert NextHead(g'.snake[0], g'.direction) == g.snake[0];
  }

  // ---------------------------------------------------------------------------
  // A session: the events the driver delivers

  /** A timer tick (with its food draw), a key press, or the restart button
      (with its food draw). */
  datatype Event = TimerFired(tickFood: Cell) | KeyPressed(key: string) | RestartClicked(restartFood: Cell)

  predicate EventInBounds(e: Event, rows: int, cols: int)
  {
    match e
    case TimerFired(f) => InBounds(f, rows, cols)
    case KeyPressed(_) => true
    case RestartClicked(f) => InBounds(f, rows, cols)
  }

  /** One event; a stopped game receives no timer ticks, its interval having
      been cleared. */
  function Deliver(g: Game, rows: int, cols: int, e: Event): (g': Game)
    requires |g.snake| >= 1
    ensures |g'.snake| >= 1
    ensures e.TimerFired? && g.gameOver ==> g' == g
  {
    match e
    case TimerFired(f) => if g.gameOver then g else Step(g, rows, cols, f).0
    case KeyPressed(k) => AfterKey(g, k)
    case RestartClicked(f) => Restarted(g, f)
  }

  function Run(g: Game, rows: int, cols: int, events: seq<Event>): (g': Game)
    requires |g.snake| >= 1
    ensures |g'.snake| >= 1
    decreases |events|
  {
    if events == [] then g else Run(Deliver(g, rows, cols, events[0]), rows, cols, events[1..])
  }

  /** Over any sequence of ticks, key presses and restarts the invariant
      holds, the high score never goes down, and the period stays between 90
      and 300. */
  lemma {:induction false} RunKeepsInv(g: Game, rows: int, cols: int, events: seq<Event>)
    requires rows >= 2 && cols >= 4 && Inv(g, rows, cols)
    requires forall i :: 0 <= i < |events| ==> EventInBounds(events[i], rows, cols)
    ensures var g' := Run(g, rows, cols, events);
            Inv(g', rows, cols) && g'.highScore >= g.highScore &&
            90 <= g'.gameSpeed <= InitialSpeed
    decreases |events|
  {
    if events != [] {
      var g1 := Deliver(g, rows, cols, events[0]);
      match events[0] {
        case TimerFired(f) =>
          if !g.gameOver {
            StepKeepsInv(g, rows, cols, f);
            HighScoreRule(g, rows, cols, f);
          }
        case KeyPressed(k) =>
        case RestartClicked(f) =>
          RestartedKeepsHighScore(g, rows, cols, f);
      }
      assert Inv(g1, rows, cols) && g1.highScore >= g.highScore;
      RunKeepsInv(g1, rows, cols, events[1..]);
    }
  }

  /** The worked example: a one-segment snake at (1,3) heading right onto the
      food at (1,4) scores one point and becomes two copies of (1,4). */
  lemma FirstFoodExample(newFood: Cell)
    ensures var g := Game([Cell(1, 3)], Right, Cell(1, 4), 0, 0, InitialSpeed, false);
            Step(g, 10, 10, newFood) ==
              (Game([Cell(1, 4), Cell(1, 4)], Right, newFood, 1, 1, InitialSpeed, false), Ate(false))
  {
    var head := Cell(1, 4);
    assert NextHead(Cell(1, 3), Right) == head;
    assert NextSpeed(1, InitialSpeed) == InitialSpeed;
    assert Pop([head] + ([head] + [Cell(1, 3)])) == [head, head];
  }
}
