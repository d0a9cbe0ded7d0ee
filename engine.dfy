/** The rules of the snake game as pure functions over a snapshot of the
    engine's state: moving the head, collisions, the direction buffer, the
    speed progression, one timer tick and one key press. The class in
    window.dfy is proved against `Initial`, `Advance` and `HandleKey`. */
module Engine {
  import opened Board

  const InitialSpeed: int := 10
  const SpeedIncrement: int := 2
  const MaxSpeed: int := 30
  /** Every this many points the speed goes up one step. */
  const PointsPerLevel: int := 5

  /** The snake a new game starts with, head first. */
  const InitialSnake: seq<Cell> := [(10, 10), (9, 10), (8, 10)]
  const InitialLength: int := |InitialSnake|

  datatype Direction = Up | Down | Left | Right

  /** The direction that points the other way. */
  function Opposite(d: Direction): (r: Direction)
    ensures r != d
  {
    match d
    case Up => Down
    case Down => Up
    case Left => Right
    case Right => Left
  }

  /** A turn from `current` to `next` is allowed unless it reverses. */
  predicate IsValidDirectionChange(current: Direction, next: Direction)
    ensures IsValidDirectionChange(current, next) <==> next != Opposite(current)
  {
    match (current, next)
    case (Up, Down) => false
    case (Down, Up) => false
    case (Left, Right) => false
    case (Right, Left) => false
    case _ => true
  }

  /** The cell one step from `head` in direction `d`. */
  function NewHead(head: Cell, d: Direction): (r: Cell)
    ensures Adjacent(head, r)
  {
    match d
    case Up => (head.0, head.1 - 1)
    case Down => (head.0, head.1 + 1)
    case Left => (head.0 - 1, head.1)
    case Right => (head.0 + 1, head.1)
  }

  /** Stepping back the opposite way returns to where the step started. */
  lemma NewHeadReverse(head: Cell, d: Direction)
    ensures NewHead(NewHead(head, d), Opposite(d)) == head
  {
  }

  /** Different directions lead to different cells. */
  lemma NewHeadInjective(head: Cell, d1: Direction, d2: Direction)
    ensures NewHead(head, d1) == NewHead(head, d2) <==> d1 == d2
  {
  }

  /** The head hits a wall or the snake's own body (tail included). */
  predicate IsCollision(snake: seq<Cell>, head: Cell)
    ensures IsCollision(snake, head) <==> !InBounds(head) || head in snake
  {
    head.0 < 0 || head.0 >= GridSize ||
    head.1 < 0 || head.1 >= GridSize ||
    head in snake
  }

  /** The keys the window reacts to; `Other` stands for every other key. */
  datatype Key = ArrowUp | ArrowDown | ArrowLeft | ArrowRight | W | A | S | D | Enter | Other

  predicate IsDirectionKey(key: Key) {
    key in {ArrowUp, ArrowDown, ArrowLeft, ArrowRight, W, A, S, D}
  }

  /** The direction a key asks for; any other key asks for `current`. */
  function KeyDirection(key: Key, current: Direction): (r: Direction)
    ensures !IsDirectionKey(key) ==> r == current
    ensures IsDirectionKey(key) ==> (r == Up <==> key in {ArrowUp, W})
    ensures IsDirectionKey(key) ==> (r == Down <==> key in {ArrowDown, S})
    ensures IsDirectionKey(key) ==> (r == Left <==> key in {ArrowLeft, A})
    ensures IsDirectionKey(key) ==> (r == Right <==> key in {ArrowRight, D})
  {
    match key
    case ArrowUp | W => Up
    case ArrowDown | S => Down
    case ArrowLeft | A => Left
    case ArrowRight | D => Right
    case _ => current
  }

  /** A snapshot of the engine's fields. */
  datatype Game = Game(
    snake: seq<Cell>,
    food: Cell,
    current: Direction,
    next: Direction,
    score: nat,
    speed: int,
    over: bool)

  /** The speed after eating brings the score to `score`. */
  function SpeedAfterEating(score: int, speed: int): (r: int)
    ensures r == speed || r == speed + SpeedIncrement
    ensures speed <= MaxSpeed && speed % 2 == 0 ==> r <= MaxSpeed
    ensures r != speed <==> score % PointsPerLevel == 0 && speed < MaxSpeed
  {
    if score % PointsPerLevel == 0 && speed < MaxSpeed then speed + SpeedIncrement else speed
  }

  /** Reference definition: one step of speed per five points, capped. */
  function SpeedFor(score: nat): int {
    var s := InitialSpeed + SpeedIncrement * (score / PointsPerLevel);
    if s < MaxSpeed then s else MaxSpeed
  }

  lemma SpeedForRange(score: nat)
    ensures InitialSpeed <= SpeedFor(score) <= MaxSpeed
    ensures SpeedFor(score) % 2 == 0
  {
  }

  lemma {:induction false} SpeedForMonotone(a: nat, b: nat)
    requires a <= b
    ensures SpeedFor(a) <= SpeedFor(b)
  {
    assert a / PointsPerLevel <= b / PointsPerLevel;
  }

  /** The source's update rule keeps the speed equal to `SpeedFor(score)`. */
  lemma SpeedStep(score: nat, speed: int)
    requires speed == SpeedFor(score)
    ensures SpeedAfterEating(score + 1, speed) == SpeedFor(score + 1)
  {
    if (score + 1) % PointsPerLevel == 0 {
      assert (score + 1) / PointsPerLevel == score / PointsPerLevel + 1;
    } else {
      assert (score + 1) / PointsPerLevel == score / PointsPerLevel;
    }
  }

  /** The state of a freshly started game with food at `food`. */
  function Initial(food: Cell): (r: Game)
    ensures |r.snake| == InitialLength && InGrid(r.snake) && Distinct(r.snake) && Connected(r.snake)
    ensures r.snake[1] == NewHead(r.snake[0], Opposite(r.current))
    ensures r.food == food && r.score == 0 && r.speed == SpeedFor(0) && !r.over
  {
    Game(InitialSnake, food, Right, Right, 0, InitialSpeed, false)
  }

  /** The cell the head moves to on the next tick. */
  function NextHead(g: Game): Cell
    requires g.snake != []
  {
    NewHead(g.snake[0], g.next)
  }

  /** The next tick moves the head onto the food. */
  predicate Eats(g: Game)
    requires g.snake != []
  {
    !g.over && !IsCollision(g.snake, NextHead(g)) && NextHead(g) == g.food
  }

  /** `newFood` is a cell the food may be placed on if the next tick eats. */
  predicate FoodChoiceOk(g: Game, newFood: Cell)
    requires g.snake != []
  {
    Eats(g) ==> InBounds(newFood) && newFood !in [NextHead(g)] + g.snake
  }

  /** One timer tick; `newFood` is where the food is placed if it is eaten. */
  function Advance(g: Game, newFood: Cell): (r: Game)
    requires g.snake != []
    ensures g.over ==> r == g
    ensures r.score == g.score || r.score == g.score + 1
    ensures |r.snake| - |g.snake| == r.score - g.score
    ensures r.speed >= g.speed
    ensures r.next == g.next && (g.over || r.current == g.next)
  {
    if g.over then g
    else
      var g1 := g.(current := g.next);
      var newHead := NewHead(g1.snake[0], g1.current);
      if IsCollision(g1.snake, newHead) then g1.(over := true)
      else
        var grown := [newHead] + g1.snake;
        if newHead == g1.food then
          var score := g1.score + 1;
          g1.(snake := grown, score := score, food := newFood,
              speed := SpeedAfterEating(score, g1.speed))
        else
          g1.(snake := grown[..|grown| - 1])
  }

  /** One key press; `newFood` is where the food is placed if it restarts. */
  function HandleKey(g: Game, key: Key, newFood: Cell): (r: Game)
    ensures !g.over ==> r.(next := g.next) == g
    ensures !g.over && g.next != Opposite(g.current) ==> r.next != Opposite(g.current)
    ensures g.over ==> r == g || (key == Enter && r == Initial(newFood))
  {
    if g.over then
      if key == Enter then Initial(newFood) else g
    else
      var d := KeyDirection(key, g.current);
      if IsValidDirectionChange(g.current, d) then g.(next := d) else g
  }

  /** The invariant every reachable state keeps. */
  predicate Inv(g: Game) {
    |g.snake| >= 1 && InGrid(g.snake) && Distinct(g.snake) && Connected(g.snake) &&
    InBounds(g.food) && g.food !in g.snake &&
    IsValidDirectionChange(g.current, g.next) &&
    |g.snake| == InitialLength + g.score &&
    g.speed == SpeedFor(g.score) &&
    (!g.over ==> g.snake[1] == NewHead(g.snake[0], Opposite(g.current)))
  }

  // ---------------------------------------------------------------------
  // Starting a game

  lemma InitialInv(food: Cell)
    requires InBounds(food) && food !in InitialSnake
    ensures Inv(Initial(food))
  {
  }

  // ---------------------------------------------------------------------
  // The three outcomes of a tick

  /** A tick of a finished game changes nothing. */
  lemma AdvanceWhenOver(g: Game, newFood: Cell)
    requires g.snake != [] && g.over
    ensures Advance(g, newFood) == g
  {
  }

  /** A tick ends the game exactly when the new head collides; then only the
      direction is taken from the buffer and the game is over. */
  lemma AdvanceCollision(g: Game, newFood: Cell)
    requires g.snake != [] && !g.over
    ensures Advance(g, newFood).over <==> IsCollision(g.snake, NextHead(g))
    ensures IsCollision(g.snake, NextHead(g)) ==>
      Advance(g, newFood) == g.(current := g.next, over := true)
  {
  }

  /** A tick that neither collides nor eats moves the snake one cell. */
  lemma AdvanceMove(g: Game, newFood: Cell)
    requires g.snake != [] && !g.over
    requires !IsCollision(g.snake, NextHead(g)) && NextHead(g) != g.food
    ensures var r := Advance(g, newFood);
      |r.snake| == |g.snake| &&
      r.snake[0] == NextHead(g) && r.snake[1..] == g.snake[..|g.snake| - 1] &&
      r.food == g.food && r.score == g.score && r.speed == g.speed &&
      r.current == g.next && r.next == g.next && !r.over
  {
  }

  /** A tick that eats grows the snake by its new head, scores one point and
      puts the food on `newFood`. */
  lemma AdvanceEat(g: Game, newFood: Cell)
    requires g.snake != [] && Eats(g)
    ensures var r := Advance(g, newFood);
      |r.snake| == |g.snake| + 1 &&
      r.snake[0] == NextHead(g) && r.snake[1..] == g.snake &&
      r.food == newFood && r.score == g.score + 1 &&
      r.current == g.next && r.next == g.next && !r.over
  {
  }

  /** Every tick of a running game has exactly one of three outcomes. */
  lemma AdvanceOutcomes(g: Game, newFood: Cell)
    requires g.snake != [] && !g.over
    ensures var r := Advance(g, newFood);
      var collided := r.over && r.snake == g.snake && r.score == g.score;
      var moved := !r.over && |r.snake| == |g.snake| && r.score == g.score;
      var grew := !r.over && |r.snake| == |g.snake| + 1 && r.score == g.score + 1;
      (collided || moved || grew) &&
      !(collided && moved) && !(collided && grew) && !(moved && grew)
  {
  }

  /** The speed rises by one step exactly when a tick eats, the new score is
      a multiple of five and the cap is not reached; it never falls. */
  lemma AdvanceSpeed(g: Game, newFood: Cell)
    requires g.snake != []
    ensures var r := Advance(g, newFood);
      (r.speed == g.speed + SpeedIncrement <==>
         Eats(g) && (g.score + 1) % PointsPerLevel == 0 && g.speed < MaxSpeed) &&
      (r.speed == g.speed || r.speed == g.speed + SpeedIncrement)
  {
  }

  // ---------------------------------------------------------------------
  // Invariants kept by a tick

  /** Step of `AdvancePreservesInv`: a move without eating keeps the snake
      on the grid, distinct and connected, and the old head becomes the neck. */
  lemma MovedSnakeFacts(s: seq<Cell>, h: Cell)
    requires |s| >= 2 && InGrid(s) && Distinct(s) && Connected(s)
    requires InBounds(h) && h !in s && Adjacent(h, s[0])
    ensures var m := [h] + s[..|s| - 1];
      InGrid(m) && Distinct(m) && Connected(m) && m[1] == s[0]
  {
    var p := s[..|s| - 1];
    assert Distinct(p);
    assert h !in p;
    DistinctPrepend(h, p);
    var m := [h] + p;
    forall i | 0 <= i < |m| - 1
      ensures Adjacent(m[i], m[i + 1])
    {
      if i > 0 {
        assert m[i] == s[i - 1] && m[i + 1] == s[i];
      }
    }
  }

  /** Step of `AdvancePreservesInv`: the same for a move that eats. */
  lemma GrownSnakeFacts(s: seq<Cell>, h: Cell)
    requires |s| >= 1 && InGrid(s) && Distinct(s) && Connected(s)
    requires InBounds(h) && h !in s && Adjacent(h, s[0])
    ensures var m := [h] + s;
      InGrid(m) && Distinct(m) && Connected(m) && m[1] == s[0]
  {
    DistinctPrepend(h, s);
    var m := [h] + s;
    forall i | 0 <= i < |m| - 1
      ensures Adjacent(m[i], m[i + 1])
    {
      if i > 0 {
        assert m[i] == s[i - 1] && m[i + 1] == s[i];
      }
    }
  }

  lemma AdjacentSymmetric(a: Cell, b: Cell)
    ensures Adjacent(a, b) <==> Adjacent(b, a)
  {
  }

  /** A tick keeps the invariant, given a free cell for the food. Without the
      steps below the proof runs out of resource. */
  lemma AdvancePreservesInv(g: Game, newFood: Cell)
    requires Inv(g) && FoodChoiceOk(g, newFood)
    ensures Inv(Advance(g, newFood))
  {
    if !g.over {
      var h := NextHead(g);
      if !IsCollision(g.snake, h) {
        AdjacentSymmetric(g.snake[0], h);
        NewHeadReverse(g.snake[0], g.next);
        if h == g.food {
          GrownSnakeFacts(g.snake, h);
          SpeedStep(g.score, g.speed);
        } else {
          MovedSnakeFacts(g.snake, h);
          var m := [h] + g.snake[..|g.snake| - 1];
          assert g.food !in m;
        }
      }
    }
  }

  /** Under the invariant, no tick reverses the direction of travel. */
  lemma NoReversal(g: Game, newFood: Cell)
    requires Inv(g)
    ensures Advance(g, newFood).current != Opposite(g.current)
  {
  }

  /** Under the invariant, turning straight back would run the head into the
      snake's neck: the reason reversals are rejected. */
  lemma ReversalCollides(g: Game)
    requires Inv(g) && !g.over
    ensures IsCollision(g.snake, NewHead(g.snake[0], Opposite(g.current)))
  {
    assert g.snake[1] in g.snake;
  }

  /** While the invariant holds, the grid is never full: a free cell remains. */
  lemma InvLeavesRoom(g: Game)
    requires Inv(g)
    ensures |g.snake| < CellCount
  {
    RoomLeft(g.snake, g.food);
  }

  // ---------------------------------------------------------------------
  // Key presses

  /** After the game is over only Enter does anything, and it restarts. */
  lemma HandleKeyWhenOver(g: Game, key: Key, newFood: Cell)
    requires g.over
    ensures HandleKey(g, key, newFood) == if key == Enter then Initial(newFood) else g
  {
  }

  /** A running game's key press changes at most the direction buffer, and
      the buffered direction never reverses the current one. */
  lemma HandleKeyRunning(g: Game, key: Key, newFood: Cell)
    requires !g.over
    ensures var r := HandleKey(g, key, newFood);
      r.snake == g.snake && r.food == g.food && r.current == g.current &&
      r.score == g.score && r.speed == g.speed && !r.over &&
      (IsDirectionKey(key) && KeyDirection(key, g.current) != Opposite(g.current) ==>
         r.next == KeyDirection(key, g.current)) &&
      (IsDirectionKey(key) && KeyDirection(key, g.current) == Opposite(g.current) ==>
         r.next == g.next)
  {
  }

  /** A key that is not a direction key cancels a pending turn. */
  lemma HandleKeyNonDirection(g: Game, key: Key, newFood: Cell)
    requires !g.over && !IsDirectionKey(key)
    ensures HandleKey(g, key, newFood) == g.(next := g.current)
  {
  }

  /** Only the last of several key presses between two ticks counts. */
  lemma HandleKeyLastWins(g: Game, first: Key, second: Key, newFood: Cell)
    requires !g.over
    requires IsDirectionKey(second) ==> KeyDirection(second, g.current) != Opposite(g.current)
    ensures HandleKey(HandleKey(g, first, newFood), second, newFood) == HandleKey(g, second, newFood)
  {
  }

  /** A key press keeps the invariant, given a free cell for a restart's food. */
  lemma HandleKeyPreservesInv(g: Game, key: Key, newFood: Cell)
    requires Inv(g)
    requires g.over && key == Enter ==> InBounds(newFood) && newFood !in InitialSnake
    ensures Inv(HandleKey(g, key, newFood))
  {
  }
}
