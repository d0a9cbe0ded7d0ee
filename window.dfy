/** The game window's state and the routines that change it in place. Each
    routine is proved to take the snapshot `State()` exactly where the
    matching rule of module Engine takes it, so every property proved there
    about `Advance`, `HandleKey` and `Initial` holds of the window too. */
module Window {
  import opened Board
  import opened Engine

  class MainWindow {
    var snake: seq<Cell>
    var food: Cell
    var currentDirection: Direction
    var nextDirection: Direction
    var score: nat
    var speed: int
    var isGameOver: bool
    /** Whether the tick timer is running; it is stopped on game over. */
    ghost var timerRunning: bool

    /** The engine's fields as one value. */
    function State(): Game
      reads this
    {
      Game(snake, food, currentDirection, nextDirection, score, speed, isGameOver)
    }

    ghost predicate Valid()
      reads this
    {
      Inv(State()) && timerRunning == !isGameOver
    }

    constructor ()
      ensures Valid() && State() == Initial(food)
    {
      new;
      InitializeGame();
    }

    /** Starts a new game; callable whether or not the last one is over. */
    method InitializeGame()
      modifies this
      ensures Valid() && State() == Initial(food)
    {
      snake := InitialSnake;
      currentDirection := Right;
      nextDirection := Right;
      score := 0;
      speed := InitialSpeed;
      isGameOver := false;
      PlaceFood();
      timerRunning := true;
      InitialInv(food);
    }

    /** Puts the food on a grid cell the snake does not occupy; the source
        draws random cells until one is free, here one is chosen. */
    method PlaceFood()
      requires InGrid(snake) && Distinct(snake) && |snake| < CellCount
      modifies this`food
      ensures InBounds(food) && food !in snake
    {
      FreeCellExists(snake);
      var cell :| InBounds(cell) && cell !in snake;
      food := cell;
    }

    /** Ends the game and stops the timer. */
    method GameOver()
      modifies this`isGameOver, this`timerRunning
      ensures isGameOver && !timerRunning
    {
      isGameOver := true;
      timerRunning := false;
    }

    /** One timer tick. Eating the last free cell is excluded: the source
        would then search for a free cell forever. */
    method Tick()
      requires Valid()
      requires Eats(State()) ==> |snake| + 1 < CellCount
      modifies this
      ensures Valid()
      ensures State() == Advance(old(State()), food)
    {
      if isGameOver {
        return;
      }
      ghost var g := State();
      currentDirection := nextDirection;
      var head := snake[0];
      var newHead := NewHead(head, currentDirection);
      if IsCollision(snake, newHead) {
        GameOver();
        AdvancePreservesInv(g, food);
        return;
      }
      DistinctPrepend(newHead, snake);
      snake := [newHead] + snake;
      if newHead == food {
        score := score + 1;
        PlaceFood();
        if score % PointsPerLevel == 0 && speed < MaxSpeed {
          speed := speed + SpeedIncrement;
        }
      } else {
        snake := snake[..|snake| - 1];
      }
      AdvancePreservesInv(g, food);
    }

    /** A key press: while the game runs, buffer the direction the key asks
        for unless it reverses; after game over, Enter restarts. */
    method KeyDown(key: Key)
      requires Valid()
      modifies this
      ensures Valid()
      ensures State() == HandleKey(old(State()), key, food)
    {
      if isGameOver {
        if key == Enter {
          InitializeGame();
        }
        return;
      }
      var newDirection := KeyDirection(key, currentDirection);
      if IsValidDirectionChange(currentDirection, newDirection) {
        nextDirection := newDirection;
      }
    }
  }
}
