# WpfSnake game engine in Dafny

A model of the snake game engine of WpfSnake's `MainWindow`. The board is a
20×20 grid. The snake is a head-first list of cells. One cell holds food. A
timer tick moves the snake one cell in the buffered direction. If the new head
leaves the grid or lands on the snake, the game is over. If the new head lands
on the food, the snake grows by one segment, scores a point and the food moves
to a free cell. Every fifth point raises the speed by 2, up to 30. Arrow keys
and WASD buffer the next direction, but a turn straight back is dropped. After
game over, only Enter does anything: it starts a new game. The window's text
lookup (`ResourceManager`) is modelled too.

Modules:

- `Board` (board.dfy): cells, the grid, and the counting lemmas. They show
  that a free cell exists while the snake leaves room.
- `Engine` (engine.dfy): the rules as pure functions over a snapshot `Game`
  of the engine's fields. `Initial` starts a game, `Advance` is one timer tick
  and `HandleKey` is one key press. `Inv` is the invariant, and the lemmas
  about these functions carry the properties.
- `Window` (window.dfy): class `MainWindow`. It has the source's fields
  (`snake`, `food`, `currentDirection`, `nextDirection`, `score`, `speed`,
  `isGameOver`) and methods that change them in place. `Tick` and `KeyDown`
  ensure that the new `State()` is what `Advance` and `HandleKey` give for
  the old one. `InitializeGame` and the constructor ensure that `State()` is
  `Initial(food)`. All four keep `Valid()` (the invariant). `PlaceFood` and
  `GameOver` state their effect on the fields they change.
- `Resources` (resources.dfy): the English and Turkish tables and
  `ResourceManager.GetString`.
- `Scenarios` (scenarios.dfy): worked examples on concrete states.

The random food cell is a nondeterministic choice (`:|`) of a free grid cell
in `PlaceFood`. The Engine functions take it as the parameter `newFood`. The
user interface's language code is a parameter of the `ResourceManager`
constructor. Whether the tick timer runs is the ghost field
`MainWindow.timerRunning`.

The invariant `Inv` says more than the source promises. The snake is never
empty, stays on the grid and never repeats a cell. It is a connected path,
its length is always 3 + score, and the food never lies on it. The speed is
always `SpeedFor(score)`: 10 plus 2 for every five points, capped at 30. The
buffered direction never reverses the current one. While the game runs, the
snake's second cell is one step behind the head. So a reversal would always
be a collision (`ReversalCollides`).

Eating keeps the tail: the `RemoveAt` at WpfSnake/MainWindow.xaml.cs:117
runs only when nothing was eaten, so `Scenarios.EatAhead` ends with four
cells.

## Model

| member | source | states |
|---|---|---|
| `Engine.IsValidDirectionChange` | WpfSnake/MainWindow.xaml.cs:220-230 | a change is valid exactly when the new direction is not the opposite of the current one |
| `Engine.NewHead` | WpfSnake/MainWindow.xaml.cs:123-133 | the new head always shares a side with the old head |
| `Engine.NewHeadReverse` | WpfSnake/MainWindow.xaml.cs:123-133 | a step followed by a step the opposite way ends where it started |
| `Engine.NewHeadInjective` | WpfSnake/MainWindow.xaml.cs:123-133 | two directions give the same new head only if they are the same direction |
| `Engine.IsCollision` | WpfSnake/MainWindow.xaml.cs:135-140 | a collision means the head is off the grid or on a snake cell, the tail included |
| `Engine.KeyDirection` | WpfSnake/MainWindow.xaml.cs:205-212 | exactly the Up arrow and W ask for Up, the Down arrow and S for Down, the Left arrow and A for Left, the Right arrow and D for Right; any other key asks for the current direction |
| `Engine.SpeedAfterEating` | WpfSnake/MainWindow.xaml.cs:107-111 | the speed either stays or rises by 2; it rises exactly when the new score is a multiple of 5 and the speed is below 30, so an even speed never passes 30 |
| `Engine.Initial` | WpfSnake/MainWindow.xaml.cs:48-59 | the start snake has three distinct, connected cells on the grid, with the second one step behind the head; the food is the given cell, score 0, speed 10, not over. `InitialInv` states the whole invariant |
| `Engine.Advance` | WpfSnake/MainWindow.xaml.cs:86-121 | one tick: a finished game is unchanged; the score stays or rises by one, and the snake grows by exactly what the score gains; the speed never falls; the buffered direction is applied. The branches are stated by `AdvanceWhenOver`, `AdvanceCollision`, `AdvanceMove`, `AdvanceEat` and `AdvanceSpeed`, the invariant by `AdvancePreservesInv` |
| `Engine.HandleKey` | WpfSnake/MainWindow.xaml.cs:194-218 | one key press: in a running game only the buffered direction changes, and it stays off the reverse of the current direction; after game over the state is unchanged or, for Enter, a new game. The cases are stated by the `HandleKey…` lemmas |
| `Engine.SpeedForRange` | WpfSnake/MainWindow.xaml.cs:18-20 | the reference speed is even and lies between 10 and 30 |
| `Engine.SpeedForMonotone` | WpfSnake/MainWindow.xaml.cs:107-111 | the reference speed never falls as the score grows |
| `Engine.SpeedStep` | WpfSnake/MainWindow.xaml.cs:104-111 | scoring a point with the source's update rule keeps the speed equal to the reference speed for the new score |
| `Engine.InitialInv` | WpfSnake/MainWindow.xaml.cs:48-61 | the start state (snake (10,10),(9,10),(8,10), Right, score 0, speed 10, not over, food free) satisfies the invariant |
| `Engine.AdvanceWhenOver` | WpfSnake/MainWindow.xaml.cs:88 | a tick after game over leaves every field unchanged |
| `Engine.AdvanceCollision` | WpfSnake/MainWindow.xaml.cs:90-98 | a tick ends the game exactly when the new head collides; then only the current direction (taken from the buffer) and the over flag change |
| `Engine.AdvanceMove` | WpfSnake/MainWindow.xaml.cs:100-118 | a tick with no collision and no food gives the new head followed by the old snake without its tail; length, food, score and speed are unchanged |
| `Engine.AdvanceEat` | WpfSnake/MainWindow.xaml.cs:100-114 | a tick onto the food gives the new head followed by the whole old snake, one more point, and the food on the chosen cell |
| `Engine.AdvanceOutcomes` | WpfSnake/MainWindow.xaml.cs:86-121 | a tick of a running game collides, moves without growing, or grows by one with one more point, and exactly one of these happens |
| `Engine.AdvanceSpeed` | WpfSnake/MainWindow.xaml.cs:102-111 | the speed rises by 2 exactly when the tick eats, the new score is a multiple of 5 and the speed is below 30; otherwise it is unchanged |
| `Engine.AdvancePreservesInv` | WpfSnake/MainWindow.xaml.cs:86-121 | given a free cell for the food, a tick keeps the whole invariant: snake on the grid, distinct, connected, length 3 + score, food off the snake, speed as referenced, no buffered reversal |
| `Engine.NoReversal` | WpfSnake/MainWindow.xaml.cs:90 | under the invariant, the direction applied by a tick is never the opposite of the previous one |
| `Engine.ReversalCollides` | WpfSnake/MainWindow.xaml.cs:220-229 | under the invariant, a running snake turning straight back would hit its own neck |
| `Engine.InvLeavesRoom` | WpfSnake/MainWindow.xaml.cs:77-84 | under the invariant, the snake is shorter than the number of grid cells |
| `Engine.HandleKeyWhenOver` | WpfSnake/MainWindow.xaml.cs:196-203 | after game over, Enter restarts the game and every other key leaves the state unchanged |
| `Engine.HandleKeyRunning` | WpfSnake/MainWindow.xaml.cs:205-217 | a key press in a running game changes only the buffered direction: it is set to the key's direction unless that reverses the current one, in which case it is kept |
| `Engine.HandleKeyNonDirection` | WpfSnake/MainWindow.xaml.cs:211-217 | a key that is not a direction key resets the buffered direction to the current one |
| `Engine.HandleKeyLastWins` | WpfSnake/MainWindow.xaml.cs:214-217 | of two key presses before a tick, only the last one counts (unless it is a rejected reversal) |
| `Engine.HandleKeyPreservesInv` | WpfSnake/MainWindow.xaml.cs:194-218 | a key press keeps the invariant |
| `Board.FreeCellExists` | WpfSnake/MainWindow.xaml.cs:77-84 | while distinct on-grid cells number fewer than 400, some grid cell is free, so the food search can succeed |
| `Board.RoomLeft` | WpfSnake/MainWindow.xaml.cs:16 | distinct on-grid cells plus one more free cell number at most 400 |
| `Board.OccupancyBound` | WpfSnake/MainWindow.xaml.cs:16 | distinct on-grid cells number at most 400 |
| `Window.MainWindow.constructor` | WpfSnake/MainWindow.xaml.cs:33-39 | a new window holds the start state with the timer running |
| `Window.MainWindow.InitializeGame` | WpfSnake/MainWindow.xaml.cs:46-75 | resets every field to the start state with food on a free cell, starts the timer, and establishes the invariant |
| `Window.MainWindow.PlaceFood` | WpfSnake/MainWindow.xaml.cs:77-84 | puts the food on a grid cell outside the snake and changes nothing else |
| `Window.MainWindow.GameOver` | WpfSnake/MainWindow.xaml.cs:142-145 | sets the over flag and stops the timer, and changes nothing else |
| `Window.MainWindow.Tick` | WpfSnake/MainWindow.xaml.cs:86-121 | the new state is `Advance` of the old one with the food on the cell it chose, and the invariant still holds |
| `Window.MainWindow.KeyDown` | WpfSnake/MainWindow.xaml.cs:194-218 | the new state is `HandleKey` of the old one for that key, and the invariant still holds |
| `Resources.EnglishResources` | WpfSnake/MainWindow.xaml.cs:264-274 | the English table defines exactly the keys Score, Speed, GameOver, Restart and AppTitle |
| `Resources.TurkishResources` | WpfSnake/MainWindow.xaml.cs:276-286 | the Turkish table defines the same keys, with texts that differ from the English table |
| `Resources.ResourcesFor` | WpfSnake/MainWindow.xaml.cs:259-261 | the Turkish table is chosen exactly for language code "tr", and the English table for every other code |
| `Resources.ResourceManager.constructor` | WpfSnake/MainWindow.xaml.cs:257-262 | the manager holds the Turkish table for language code "tr" and the English table for any other |
| `Resources.ResourceManager.GetString` | WpfSnake/MainWindow.xaml.cs:288-291 | returns the stored text for a key that is present, and the key itself otherwise |
| `Resources.TablesDefineSameKeys` | WpfSnake/MainWindow.xaml.cs:264-286 | both tables define exactly the keys Score, Speed, GameOver, Restart and AppTitle |
| `Resources.GetStringByCulture` | WpfSnake/MainWindow.xaml.cs:257-291 | for every language code, a known key gives the Turkish text under "tr" and the English text under any other code, and any other key gives itself |
| `Scenarios.EatAhead` | WpfSnake/MainWindow.xaml.cs:100-114 | from the start position with food at (11,10), one tick gives snake (11,10),(10,10),(9,10),(8,10), score 1 and the new food |
| `Scenarios.MoveRight` | WpfSnake/MainWindow.xaml.cs:100-118 | from the start position with the food elsewhere, one tick gives snake (11,10),(10,10),(9,10) |
| `Scenarios.MoveUpAndDown` | WpfSnake/MainWindow.xaml.cs:125-128 | a snake moving Up from (5,5) gets head (5,4), and one moving Down from (5,7) gets head (5,8) |
| `Scenarios.HitLeftWall` | WpfSnake/MainWindow.xaml.cs:135-140 | a snake at (0,10) moving left ends the game with the snake unchanged |
| `Scenarios.RejectReversal` | WpfSnake/MainWindow.xaml.cs:214-229 | a snake moving up keeps Up after the Down arrow or S and takes Left after the Left arrow |
| `Scenarios.SpeedSteps` | WpfSnake/MainWindow.xaml.cs:107-111 | the fifth point takes speed 10 to 12, the sixth leaves it, and at 30 it stays 30 |
| `Scenarios.RestartOnEnter` | WpfSnake/MainWindow.xaml.cs:196-203 | after game over the Up arrow changes nothing and Enter restarts |

## Left out

- Drawing (`DrawGame`), `UpdateUI`, `Window_Loaded`, `OnClosed`, `RestartButton_Click` and the XAML controls are rendering and window plumbing. `RestartButton_Click` calls `InitializeGame`, which is modelled, then moves keyboard focus (UI).
- The timer's interval (`1000.0 / speed` milliseconds) is floating-point timer machinery. Only whether the timer runs is kept, as a ghost field.
- `System.Random` is left out. `PlaceFood` chooses any free cell instead of drawing random cells until one is free. So the model says nothing about the food's distribution.
- Window.MainWindow.Tick: its precondition excludes eating the last free cell of the grid. There the source's food search loops forever, and a hang cannot be modelled.
- The culture lookup (`CultureInfo.CurrentUICulture`) is a library call. Its two-letter code is a constructor parameter. `string.Format` on the score and speed texts is left out too.
- WPF `Point` has double coordinates. Cells are integer pairs, since every coordinate comes from integer literals, integer random draws or steps of ±1.
- The default case of `GetNewHead` (`_ => head`) cannot be reached by any value of the four-value enum, so it is left out.
