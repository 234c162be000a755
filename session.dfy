/** The game's top-level variables as one object, updated in place by the
    render routine, the restart button and the keyboard handler. Each method
    is proved to change the state exactly as the matching function of module
    Engine does, and to keep Engine.Inv. */
module Session {
  import opened Board
  import opened Keys
  import opened Engine

  class SnakeGame {
    const rows: int
    const cols: int
    var snake: seq<Cell>
    var direction: Direction
    var food: Cell
    var score: int
    var highScore: int
    var gameSpeed: int
    var gameOver: bool

    /** The fields as one value. */
    function State(): Game
      reads this
    {
      Game(snake, direction, food, score, highScore, gameSpeed, gameOver)
    }

    ghost predicate Valid()
      reads this
    {
      rows >= 2 && cols >= 4 && Inv(State(), rows, cols)
    }

    /** The page load: the board size from the layout, the first food draw. */
    constructor (rows: int, cols: int, firstFood: Cell)
      requires rows >= 2 && cols >= 4 && InBounds(firstFood, rows, cols)
      ensures Valid()
      ensures this.rows == rows && this.cols == cols && State() == Initial(firstFood)
    {
      this.rows := rows;
      this.cols := cols;
      snake := [StartCell];
      direction := StartDirection;
      food := firstFood;
      score := 0;
      highScore := 0;
      gameSpeed := InitialSpeed;
      gameOver := false;
    }

    /** `render`: move the head one cell, stop on a wall or the body, eat the
        food if it is there, then shift the body. `newFood` is the random cell
        the food moves to if it is eaten. */
    method Tick(newFood: Cell) returns (outcome: Outcome)
      requires Valid() && InBounds(newFood, rows, cols)
      modifies this
      ensures Valid()
      ensures (State(), outcome) == Step(old(State()), rows, cols, newFood)
    {
      ghost var before := State();
      StepKeepsInv(before, rows, cols, newFood);
      var head := NextHead(snake[0], direction);

      if !InBounds(head, rows, cols) {
        gameOver := true;
        return WallHit;
      }

      var hit := FindSegment(snake, head);
      if hit {
        gameOver := true;
        return SelfHit;
      }

      var ate := head == food;
      var faster := false;
      if ate {
        food := newFood;
        snake := [head] + snake;
        score := score + 1;
        if score > highScore {
          highScore := score;
        }
        if score % 5 == 0 && gameSpeed > SpeedThreshold {
          gameSpeed := gameSpeed - SpeedStep;
          faster := true;
        }
      }

      snake := [head] + snake;
      snake := snake[..|snake| - 1];
      outcome := if ate then Ate(faster) else Moved;
    }

    /** `restartGame`: a fresh game that keeps the high score. */
    method Restart(newFood: Cell)
      requires Valid() && InBounds(newFood, rows, cols)
      modifies this
      ensures Valid()
      ensures State() == Restarted(old(State()), newFood)
    {
      score := 0;
      gameSpeed := InitialSpeed;
      direction := StartDirection;
      snake := [StartCell];
      food := newFood;
      gameOver := false;
    }

    /** The keydown handler: only `direction` can change. */
    method KeyDown(key: string)
      requires Valid()
      modifies this`direction
      ensures Valid()
      ensures direction == OnKey(key, old(direction))
    {
      direction := OnKey(key, direction);
    }
  }
}
