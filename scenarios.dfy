/** Worked examples of single ticks and key presses on concrete states. */
module Scenarios {
  import opened Board
  import opened Engine

  /** The starting snake facing food just ahead: one tick eats it, keeps the
      tail and scores one point. */
  lemma EatAhead(newFood: Cell)
    ensures var g := Initial((11, 10));
      var r := Advance(g, newFood);
      r.snake == [(11, 10), (10, 10), (9, 10), (8, 10)] &&
      r.score == 1 && r.food == newFood && r.speed == InitialSpeed && !r.over
  {
  }

  /** The starting snake with the food elsewhere moves one cell right. */
  lemma MoveRight()
    ensures var r := Advance(Initial((0, 0)), (0, 0));
      r.snake == [(11, 10), (10, 10), (9, 10)] && r.score == 0 && !r.over
  {
  }

  /** Up lowers y by one and Down raises it by one. */
  lemma MoveUpAndDown()
    ensures var g := Game([(5, 5), (5, 6), (5, 7)], (0, 0), Up, Up, 0, InitialSpeed, false);
      var r := Advance(g, (0, 0));
      r.snake == [(5, 4), (5, 5), (5, 6)] && !r.over
    ensures var g := Game([(5, 7), (5, 6), (5, 5)], (0, 0), Down, Down, 0, InitialSpeed, false);
      var r := Advance(g, (0, 0));
      r.snake == [(5, 8), (5, 7), (5, 6)] && !r.over
  {
  }

  /** A snake at the left wall moving left runs into the wall. */
  lemma HitLeftWall(newFood: Cell)
    ensures var g := Game([(0, 10), (1, 10)], (5, 5), Left, Left, 0, InitialSpeed, false);
      var r := Advance(g, newFood);
      r.over && r.snake == g.snake && r.score == 0
  {
  }

  /** A snake moving up ignores a request to move down. */
  lemma RejectReversal(newFood: Cell)
    ensures var g := Game([(5, 5), (5, 6), (5, 7)], (0, 0), Up, Up, 0, InitialSpeed, false);
      HandleKey(g, ArrowDown, newFood).next == Up &&
      HandleKey(g, S, newFood).next == Up &&
      HandleKey(g, ArrowLeft, newFood).next == Left
  {
  }

  /** The fifth point raises the speed from 10 to 12; at 30 it stays. */
  lemma SpeedSteps()
    ensures SpeedAfterEating(5, 10) == 12
    ensures SpeedAfterEating(6, 12) == 12
    ensures SpeedAfterEating(55, 30) == 30
    ensures SpeedFor(5) == 12 && SpeedFor(50) == 30 && SpeedFor(55) == 30
  {
  }

  /** After game over a direction key does nothing and Enter restarts. */
  lemma RestartOnEnter(newFood: Cell)
    ensures var g := Game([(0, 10), (1, 10), (2, 10)], (5, 5), Left, Left, 0, InitialSpeed, true);
      HandleKey(g, ArrowUp, newFood) == g &&
      HandleKey(g, Enter, newFood) == Initial(newFood)
  {
  }
}
