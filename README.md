# A verified model of the VRGameJam maze, camera and score cores

This project models, in Dafny, four cores of the VRGameJam game and proves what they promise.

- **The maze engine (C#, `MazeData.cs`).** A grid of cells, each with four sides. A side is a
  wall, an empty side, an open door or a closed door. `Generate` walls every cell and carves a
  tree of passages from the corner (0, 0) by recursive backtracking, visiting directions in
  random order. `Braid` opens one more wall in every dead end. `ShuffleDoors` redraws every door
  open or closed. `FindBestPath` is an A* search. `ValidateMazeState` checks that the two
  sides of every shared wall agree and that no cell is walled in. A `Monster` wanders the maze:
  it prefers the least-visited open side and sometimes homes in on a target along the best
  path.
- **The C++ port (`MazeFun.cpp`).** The same engine, with a few differences the model keeps
  apart:
  - cells are scanned column by column;
  - randomness comes from `rand()` and `std::shuffle`, and `ForEachDirRandomOrder`
    shuffles a fresh order each time;
  - `FindBestPath` uses a priority queue and rejects endpoints outside the maze;
  - the monster's `HomeIn` erases the first step of the path;
  - a console drawing (`OutputToConsole`) shows the maze and the monster.
- **The instructor camera's processor (C#, `InstructorProcessor.cs`).** Four priority zones,
  each holding the camera container installed there, a list of at most four pending
  transitions, and the active priority. The operations are cuts, transitions, priority
  releases and the bookkeeping of finished transitions. The camera's unit tests are replayed
  on the model as command sequences. Each one states the containers and the transition slots
  the test checks.
- **The score keeper (C#, `ScoreKeeper.cs`).** It counts carried and deposited orbs, runs the
  countdown, formats the timer text and applies the win test at the end of the game.

## Files

- `maze_cells.dfy` (module `MazeCells`): directions, side states and their masks, and
  `CellData` as a value.
- `random_tape.dfy` (module `RandomTape`): the random sources as tapes of pre-drawn values.
- `maze_util.dfy` (module `MazeUtil`):
  - the Fisher–Yates `Shuffle` on an array;
  - the shared direction buffer;
  - the priority comparer and `SortedAdd`.
- `door_draws.dfy` (module `DoorDraws`): which tape draw decides each door when
  `ShuffleDoors` visits the cells in row order (C#) or column order (C++).
- `maze_grid.dfy` (module `MazeGrid`): predicates over the cell grid, including:
  - symmetric shared walls and a walled border;
  - passages and walks;
  - the carving tree built by `Generate`;
  - door redrawing;
  - `ValidateMazeState`'s condition.
- `path_search.dfy` (module `PathSearch`): the A* search of `FindBestPath` with its invariants,
  and the backtracking of the path.
- `maze_data.dfy` (module `MazeData`): the C# `Maze` class.
- `monster.dfy` (module `MazeMonster`): the C# `Monster` class.
- `maze_fun.dfy` (module `MazeFun`): the C++ `BaseMaze`/`Maze`.
- `maze_fun_monster.dfy` (module `MazeFunMonster`): the C++ `Monster` and `OutputToConsole`.
- `instructor_processor.dfy` (module `Instructors`): `InstructorProcessor`, as a class over two
  arrays (the containers and the transition slots) plus a pure model of the pending list.
- `instructor_tests.dfy` (module `InstructorTests`): the unit tests' command sequences.
- `score_keeper.dfy` (module `Score`): `ScoreKeeper`.

## Conventions

- **Randomness.** Random numbers come from an explicit `Random` object holding three tapes,
  which the operations consume:
  - `ints` stands for `UnityEngine.Random.Range` on integers and for C++ `rand()`;
  - `units` stands for `UnityEngine.Random.Range(0f, 1f)`;
  - `orders` stands for the result of `std::shuffle` on the four directions.

  An exhausted tape yields a default value. Contracts state which draws an operation makes,
  so the results are functions of the tape.
- **Errors.** Each check in the source is modelled in one of four ways.
  - A C# exception (an index out of range, a null dereference) shows in the model as an
    `Option` result or an `ok` flag.
  - An assertion that every caller in these cores meets becomes a precondition. Examples are
    the door checks of `CellData.OpenDoor`/`CloseDoor` (`Assert.IsTrue` in C#, `assert` in C++)
    and the check in `SortedAdd` that the entry is new.
  - An assertion that a reachable input can fail becomes an error outcome. The operation
    returns `None` or `ok == false` and leaves the state as it was. This covers:
    - both `FindBestPath`s, for an endpoint outside the maze or an unreachable goal;
    - C++ `Monster::Move`'s `assert(false)`;
    - `ValidateMazeState`, whose assertions become its answer.
    The same goes for the C++ undefined behaviour the monster can reach: the erase on an
    empty path and `xDelta[Count]`.
  - The camera's `Assertion.Assert` logs an error and pauses the editor (`Debug.Break`), and
    then execution goes on. A Unity `Assert.IsTrue` followed by a `return` (C# `Monster.Move`)
    also lets execution continue. Both are modelled by what the code does next, for
    example `InsertTransition` on a full list or `ReleasePriority` of priority None.

  The one piece of C++ undefined behaviour kept as a precondition is a grid without columns:
  `Maze::Height` reads `mCells[0]`, so `Maze(0, h)` is undefined. `Maze(w, 0)` is harmless in
  the source. The model's constructor still asks for a height above zero, because its class
  invariant keeps a cell for the monster, which starts at (0, 0). The program builds one maze,
  `StaticMaze<30, 30>`, and that maze meets both bounds.
- **The C# `CellData` is a class, stored once per grid slot and never shared.** The model
  keeps it as a value in an `array2`, and every method that changes a cell writes its slot.
- **Bounded integers.** `int` is modelled as unbounded. Grid sizes and counts in this code
  are far below the 32-bit limits.

## Model

| member | source | states |
|---|---|---|
| MazeCells.Opposite | UnityProject/Assets/Scripts/CSharpScripts/Game/MazeData.cs:92-97 | the opposite of a direction is a direction (and of `Count` is `Count`), and its deltas are the negated deltas |
| MazeCells.OppositeInvolution | UnityProject/Assets/Scripts/CSharpScripts/Game/MazeData.cs:92-97 | taking the opposite twice gives back the direction, and no direction is its own opposite |
| MazeCells.DeltasDistinct | UnityProject/Assets/Scripts/CSharpScripts/Game/MazeData.cs:129-130 | two directions with the same x and y deltas are the same direction |
| MazeCells.TestWallState | UnityProject/Assets/Scripts/CSharpScripts/Game/MazeData.cs:378-383 | each mask accepts exactly its states: blocked = wall or closed door, door = open or closed door, and wall, closed door, open door and empty alone |
| MazeCells.CountBlocked | UnityProject/Assets/Scripts/CSharpScripts/Game/MazeData.cs:434-438 | the number of blocked sides is at most the number of sides |
| MazeCells.CountBlockedFull | UnityProject/Assets/Scripts/CSharpScripts/Game/MazeData.cs:398-401 | all sides are blocked exactly when the count equals the number of sides |
| MazeCells.CountBlockedNone | UnityProject/Assets/Scripts/CSharpScripts/Game/MazeData.cs:434-438 | the count is zero exactly when no side is blocked |
| MazeCells.CountBlockedUpdate | UnityProject/Assets/Scripts/CSharpScripts/Game/MazeData.cs:440-443 | rewriting one side changes the count by what that side contributed before and after |
| MazeCells.CellData.WallCount | UnityProject/Assets/Scripts/CSharpScripts/Game/MazeData.cs:434-438 | the count of blocked sides is at most 4; it is 4 exactly when the cell is fully walled and 0 exactly when no side is blocked |
| MazeCells.CellData.GetFirstHole | UnityProject/Assets/Scripts/CSharpScripts/Game/MazeData.cs:413-420 | a result other than `Count` is an empty side, and every side before the result is not empty |
| MazeCells.CellData.FirstHoleFrom | UnityProject/Assets/Scripts/CSharpScripts/Game/MazeData.cs:413-420 | the scan from side i stops at the first empty side at or after i, or at `Count` |
| MazeCells.CellData.Reset | UnityProject/Assets/Scripts/CSharpScripts/Game/MazeData.cs:392-396 | every side becomes a wall, or every side becomes empty |
| MazeCells.CellData.BreakWall | UnityProject/Assets/Scripts/CSharpScripts/Game/MazeData.cs:440-443 | the side becomes an open door or empty, and the other sides keep their state |
| MazeCells.CellData.OpenDoor | UnityProject/Assets/Scripts/CSharpScripts/Game/MazeData.cs:422-426 | on a door side: the side becomes an open door and the others keep theirs |
| MazeCells.CellData.CloseDoor | UnityProject/Assets/Scripts/CSharpScripts/Game/MazeData.cs:428-432 | on a door side: the side becomes a closed door and the others keep theirs |
| MazeCells.CellData.FlipDoor | UnityProject/Assets/Scripts/CSharpScripts/Game/MazeData.cs:445-451 | an open door closes, a closed door opens, a side with no door leaves the cell unchanged, and the other sides keep their state |
| MazeCells.CellData.GetChar | UnityProject/Assets/Scripts/CSharpScripts/Game/MazeData.cs:453-478 | one character per side, and "?" exactly for `Count` |
| MazeCells.CellData.GetNeighbours | UnityProject/Assets/Scripts/CSharpScripts/Game/MazeData.cs:480-491 | the directions returned are exactly the unblocked sides, in increasing order |
| MazeCells.NewCellData | UnityProject/Assets/Scripts/CSharpScripts/Game/MazeData.cs:385-390 | a new cell has four empty sides and no blocked side |
| MazeCells.BreakWallCount | UnityProject/Assets/Scripts/CSharpScripts/Game/MazeData.cs:440-443 | breaking a blocked side lowers the wall count by exactly one |
| MazeCells.ResetCount | UnityProject/Assets/Scripts/CSharpScripts/Game/MazeData.cs:392-396 | a reset to walls leaves the cell fully walled with count 4; a reset to empty leaves count 0 |
| MazeCells.DoorOperations | UnityProject/Assets/Scripts/CSharpScripts/Game/MazeData.cs:422-432 | opening or closing keeps a door a door; opening a closed door lowers the count by one, closing an open door raises it by one |
| MazeCells.FlipDoorInvolution | UnityProject/Assets/Scripts/CSharpScripts/Game/MazeData.cs:445-451 | flipping the same side twice gives back the cell |
| MazeCells.GlyphRoundTrip | UnityProject/Assets/Scripts/CSharpScripts/Game/MazeData.cs:453-478 | the character of a side, read back with the drawing's legend ('_' or '\|' a wall, ' ' empty, '.' an open door, '=' or '/' a closed door), gives the side's state: no two states draw alike |
| MazeCells.CountOfFour | UnityProject/Assets/Scripts/CSharpScripts/Game/MazeData.cs:434-438 | the wall count is the sum of the four sides' blocked flags |
| MazeCells.TwoOpenSides | UnityProject/Assets/Scripts/CSharpScripts/Game/MazeData.cs:434-438 | a cell with two different unblocked sides has at most two walls |
| MazeUtil.FisherYatesPermutes | UnityProject/Assets/Scripts/CSharpScripts/Game/MazeData.cs:105-117 | the Fisher–Yates result keeps the length and is a permutation of its input |
| MazeUtil.Shuffle | UnityProject/Assets/Scripts/CSharpScripts/Game/MazeData.cs:105-117 | the array in place becomes the Fisher–Yates shuffle of its old content for the draws taken from the tape (so a permutation of it), and the tape loses exactly those draws |
| MazeUtil.DirectionBuffer.constructor | UnityProject/Assets/Scripts/CSharpScripts/Game/MazeData.cs:119 | the shared buffer starts as North, East, South, West |
| MazeUtil.DirectionBuffer.ShuffleDirections | UnityProject/Assets/Scripts/CSharpScripts/Game/MazeData.cs:121-127 | the buffer is shuffled in place and stays one of each direction |
| MazeUtil.FisherYatesKeepsOrder | UnityProject/Assets/Scripts/CSharpScripts/Game/MazeData.cs:121-127 | shuffling an ordering of the four directions gives an ordering of the four directions |
| MazeUtil.PermutationOfOrder | UnityProject/Assets/Scripts/CSharpScripts/Game/MazeData.cs:121-127 | any permutation of an ordering of the four directions is one |
| MazeUtil.AllDirsIsOrder | UnityProject/Assets/Scripts/CSharpScripts/Game/MazeData.cs:119 | North, East, South, West holds each direction once |
| MazeUtil.DistinctCount | UnityProject/Assets/Scripts/CSharpScripts/Game/MazeData.cs:121-127 | a sequence without repeats holds each direction at most once |
| MazeUtil.CompareInt | UnityProject/Assets/Scripts/CSharpScripts/Game/MazeData.cs:668-676 | `CompareTo`: negative exactly when less, zero exactly when equal |
| MazeUtil.ComparePrioritized | UnityProject/Assets/Scripts/CSharpScripts/Game/MazeData.cs:668-676 | zero exactly for equal entries; negative exactly for a lower priority, then a lower x, then a lower y |
| MazeUtil.ComparerIsTotalOrder | UnityProject/Assets/Scripts/CSharpScripts/Game/MazeData.cs:668-676 | the comparer is a strict total order, antisymmetric in sign |
| MazeUtil.SortedAdd | UnityProject/Assets/Scripts/CSharpScripts/Game/MazeData.cs:221-226 | inserting a new entry lengthens the list by one and adds exactly that entry |
| MazeUtil.SortedAddKeepsSorted | UnityProject/Assets/Scripts/CSharpScripts/Game/MazeData.cs:221-226 | inserting into a sorted frontier keeps it sorted |
| MazeUtil.HeadIsLeast | UnityProject/Assets/Scripts/CSharpScripts/Game/MazeData.cs:710-716 | the head of a sorted frontier precedes every other entry, so its priority is the least |
| MazeUtil.TailSorted | UnityProject/Assets/Scripts/CSharpScripts/Game/MazeData.cs:710-716 | removing the head keeps the frontier sorted |
| MazeGrid.CellInDir | UnityProject/Assets/Scripts/CSharpScripts/Game/MazeData.cs:649-658 | a cell is returned exactly when the step lands inside the grid, and it is the cell there |
| MazeGrid.StepBack | UnityProject/Assets/Scripts/CSharpScripts/Game/MazeData.cs:92-97 | stepping in a direction and then its opposite returns to the start |
| MazeGrid.StepInjective | UnityProject/Assets/Scripts/CSharpScripts/Game/MazeData.cs:129-130 | two directions that step from the same cell to the same cell are the same |
| MazeGrid.UnblockedStaysInside | UnityProject/Assets/Scripts/CSharpScripts/Game/MazeData.cs:718-722 | in a grid with a walled border, an unblocked side always leads to a cell inside the maze |
| MazeGrid.SharedWallKeepsSymmetry | UnityProject/Assets/Scripts/CSharpScripts/Game/MazeData.cs:606-620 | writing both sides of a shared wall with the same state keeps every shared wall consistent |
| MazeGrid.SharedWallKeepsBorder | UnityProject/Assets/Scripts/CSharpScripts/Game/MazeData.cs:606-620 | writing a shared wall never opens the border |
| MazeGrid.AllCellsCount | UnityProject/Assets/Scripts/CSharpScripts/Game/MazeData.cs:500-508 | the grid has width × height cells |
| MazeGrid.OpeningAddsPassage | UnityProject/Assets/Scripts/CSharpScripts/Game/MazeData.cs:606-620 | opening a blocked shared wall adds exactly that passage, which was not there before |
| MazeGrid.CarveKeepsNoDoors | UnityProject/Assets/Scripts/CSharpScripts/Game/MazeData.cs:606-620 | carving without doors keeps a door-free grid door-free |
| MazeGrid.CarveKeepsWalledOutside | UnityProject/Assets/Scripts/CSharpScripts/Game/MazeData.cs:590-604 | carving into a new cell leaves every other cell outside the tree fully walled |
| MazeGrid.CarveKeepsOpenInside | UnityProject/Assets/Scripts/CSharpScripts/Game/MazeData.cs:590-604 | carving keeps every wall between two cells of the tree either a passage of the tree or intact |
| MazeGrid.CarveKeepsParented | UnityProject/Assets/Scripts/CSharpScripts/Game/MazeData.cs:590-604 | the carved cell joins the tree, one rank below its parent and linked to it through the new passage |
| MazeGrid.CarveStep | UnityProject/Assets/Scripts/CSharpScripts/Game/MazeData.cs:590-604 | one carve into a fully walled new neighbour keeps every invariant of the carving tree |
| MazeGrid.WalkToStart | UnityProject/Assets/Scripts/CSharpScripts/Game/MazeData.cs:590-604 | every cell of the carving tree has a walk through open sides back to the start |
| MazeGrid.CarvingStarts | UnityProject/Assets/Scripts/CSharpScripts/Game/MazeData.cs:559-563 | a fully walled grid with the start cell is a carving tree of one cell |
| MazeGrid.WalledNeighbourIsNew | UnityProject/Assets/Scripts/CSharpScripts/Game/MazeData.cs:595-599 | a fully walled neighbour of a tree cell is not in the tree yet, and the wall towards it is blocked |
| MazeGrid.FewerUnvisited | UnityProject/Assets/Scripts/CSharpScripts/Game/MazeData.cs:590-604 | adding a new cell to the tree leaves fewer cells unvisited: the recursion ends |
| MazeGrid.OpeningLowersCounts | UnityProject/Assets/Scripts/CSharpScripts/Game/MazeData.cs:606-620 | opening a shared wall lowers the opened cell's count by one and raises no count |
| MazeGrid.RedrawnTransitive | UnityProject/Assets/Scripts/CSharpScripts/Game/MazeData.cs:622-647 | redrawing a door twice is a redraw of it |
| MazeGrid.RedrawnFromSnapshot | UnityProject/Assets/Scripts/CSharpScripts/Game/MazeData.cs:622-647 | a grid is a redraw of itself |
| MazeGrid.RedrawnFromChain | UnityProject/Assets/Scripts/CSharpScripts/Game/MazeData.cs:622-647 | a redraw of a redraw of the original grid is a redraw of it |
| MazeGrid.RedrawnFromOld | UnityProject/Assets/Scripts/CSharpScripts/Game/MazeData.cs:622-647 | a grid redrawn from its state at the start is a redraw of that state |
| MazeGrid.DoorWriteRedrawn | UnityProject/Assets/Scripts/CSharpScripts/Game/MazeData.cs:632-644 | writing a settled door state into door sides keeps the grid a redraw of the original |
| MazeGrid.DoorHasNeighbour | UnityProject/Assets/Scripts/CSharpScripts/Game/MazeData.cs:632-644 | in a well-formed grid a door side always has a neighbour, whose matching side is a door |
| DoorDraws.Visit.RowPlace | UnityProject/Assets/Scripts/CSharpScripts/Game/MazeData.cs:547-552 | in row order cell (x, y) is visit x of line y, the next visit is x + 1, and the draws before it are those of the earlier rows and of the first x cells of row y |
| DoorDraws.Visit.ColumnPlace | Cpp/MazeFun.cpp:406-411 | in column order cell (x, y) is visit y of line x, the next visit is y + 1, and the draws before it are those of the earlier columns and of the first y cells of column x |
| DoorDraws.Visit.LinesNext | UnityProject/Assets/Scripts/CSharpScripts/Game/MazeData.cs:547-552 | the draws of the first l + 1 lines are those of the first l lines and then those of line l |
| DoorDraws.DoorsBeforeSame | UnityProject/Assets/Scripts/CSharpScripts/Game/MazeData.cs:626-645 | two cells with doors on the same sides make the same draws before every side |
| DoorDraws.DrawsAsInOrig | UnityProject/Assets/Scripts/CSharpScripts/Game/MazeData.cs:622-647 | a redrawn cell makes the same draws as it did at the start, and it was in the snapshot |
| DoorDraws.DrawnAtStart | UnityProject/Assets/Scripts/CSharpScripts/Game/MazeData.cs:622-647 | before any visit every door is in its starting state |
| DoorDraws.LineDone | UnityProject/Assets/Scripts/CSharpScripts/Game/MazeData.cs:547-552 | the doors as left at the end of a line are those at the start of the next line |
| DoorDraws.AllDrawn | UnityProject/Assets/Scripts/CSharpScripts/Game/MazeData.cs:622-647 | after every line is visited, each door side that held a door is the draw of the later visit of its pair |
| DoorDraws.StateStep | UnityProject/Assets/Scripts/CSharpScripts/Game/MazeData.cs:628-644 | visiting cell c changes the expected state of c's door sides to c's own draws, and of the sides facing c to c's draws on the opposite side, and of no other side |
| DoorDraws.CellDrawn | UnityProject/Assets/Scripts/CSharpScripts/Game/MazeData.cs:626-645 | a visit that sets each door side of c to c's draw for it, and changes nothing away from c and the sides facing it, moves the expected states on to the next visit |
| MazeGrid.BlockedSideInside | UnityProject/Assets/Scripts/CSharpScripts/Game/MazeData.cs:574-586 | in a grid at least 2 by 2, a cell with 3 or more walls has a blocked side towards a neighbour inside: the search for a wall to break ends |
| MazeGrid.ValidStateMeaning | UnityProject/Assets/Scripts/CSharpScripts/Game/MazeData.cs:766-780 | `ValidateMazeState`'s condition holds exactly when every shared wall agrees on both sides and no cell is walled in |
| MazeGrid.ValidAfterBraid | UnityProject/Assets/Scripts/CSharpScripts/Game/MazeData.cs:565-588 | a well-formed grid whose cells all have at most 3 walls passes validation |
| MazeGrid.ValidAfterFullCarving | UnityProject/Assets/Scripts/CSharpScripts/Game/MazeData.cs:766-780 | a carving tree that covers a grid of more than one cell passes validation |
| MazeGrid.DoorsBefore | UnityProject/Assets/Scripts/CSharpScripts/Game/MazeData.cs:626-629 | the number of door sides before side d, which is the number of draws made before it, is at most d |
| MazeGrid.GeneratedTree | UnityProject/Assets/Scripts/CSharpScripts/Game/MazeData.cs:559-604 | after generation: every reached cell has a walk to (0, 0), there is one passage fewer than reached cells (a tree), and every unreached cell is fully walled |
| PathSearch.Heuristic | UnityProject/Assets/Scripts/CSharpScripts/Game/MazeData.cs:686-692 | never negative; the Manhattan distance to the goal, except at the monster's last position |
| PathSearch.GetDir | UnityProject/Assets/Scripts/CSharpScripts/Game/MazeData.cs:734-751 | a result other than `Count` is the direction whose step leads from the first position to the second |
| PathSearch.GetDirOfStep | UnityProject/Assets/Scripts/CSharpScripts/Game/MazeData.cs:734-751 | `getDir` of a cell and its neighbour in direction d is d |
| PathSearch.Reversed | UnityProject/Assets/Scripts/CSharpScripts/Game/MazeData.cs:761 | reversing keeps the length |
| PathSearch.ReversedSnoc | UnityProject/Assets/Scripts/CSharpScripts/Game/MazeData.cs:753-761 | reversing a list with one more step puts that step first |
| PathSearch.SearchStarts | UnityProject/Assets/Scripts/CSharpScripts/Game/MazeData.cs:701-708 | the initial frontier, costs and parents satisfy the search invariant, and nothing is expanded yet |
| PathSearch.PopKeeps | UnityProject/Assets/Scripts/CSharpScripts/Game/MazeData.cs:712-716 | taking the head of the frontier keeps the invariant, leaves every cell but the head closed, and keeps the goal pending unless the head is the goal |
| PathSearch.PopKeepsInv | UnityProject/Assets/Scripts/CSharpScripts/Game/MazeData.cs:712-713 | the head of the frontier is a known cell inside the grid, and removing it keeps the search invariant |
| PathSearch.PopKeepsClosed | UnityProject/Assets/Scripts/CSharpScripts/Game/MazeData.cs:712-713 | removing the head leaves every other expanded cell closed |
| PathSearch.PopKeepsPending | UnityProject/Assets/Scripts/CSharpScripts/Game/MazeData.cs:712-716 | a goal not yet reached stays pending after removing another cell |
| PathSearch.PopKeepsClosedAt | UnityProject/Assets/Scripts/CSharpScripts/Game/MazeData.cs:712-713 | a closed cell other than the head stays closed when the head is removed |
| PathSearch.RoundDecreases | UnityProject/Assets/Scripts/CSharpScripts/Game/MazeData.cs:710-732 | a round of the main loop lowers the loop measure |
| PathSearch.WalkFromParent | UnityProject/Assets/Scripts/CSharpScripts/Game/MazeData.cs:753-758 | every known cell but the start has a parent that is known, strictly cheaper and one step away, so any walk from the cell extends back to the parent |
| PathSearch.ExhaustedReach | UnityProject/Assets/Scripts/CSharpScripts/Game/MazeData.cs:710-732 | once the frontier is empty, every cell reachable from the start has a cost |
| PathSearch.RelaxedEntryIsNew | UnityProject/Assets/Scripts/CSharpScripts/Game/MazeData.cs:722-729 | a relaxed neighbour is not the start, is inside the grid, and its new entry is not in the frontier yet |
| PathSearch.Relax | UnityProject/Assets/Scripts/CSharpScripts/Game/MazeData.cs:722-729 | relaxing sets the neighbour's cost to one more than the current cell's and its parent to the current cell, keeps every other cost and parent, and adds exactly the new entry to a frontier that stays sorted |
| PathSearch.RelaxUpdates | UnityProject/Assets/Scripts/CSharpScripts/Game/MazeData.cs:722-729 | the relaxation is exactly `SortedAdd` of the new entry, with the cost and parent maps updated at the neighbour |
| PathSearch.RelaxKeepsLink | UnityProject/Assets/Scripts/CSharpScripts/Game/MazeData.cs:722-729 | after relaxing, every known cell is still linked to a known parent one step away |
| PathSearch.RelaxKeepsEntry | UnityProject/Assets/Scripts/CSharpScripts/Game/MazeData.cs:722-729 | every entry of the new frontier names a known cell, with a priority no lower than its current one |
| PathSearch.RelaxKeepsInv | UnityProject/Assets/Scripts/CSharpScripts/Game/MazeData.cs:722-729 | relaxing keeps the search invariant |
| PathSearch.RelaxLowers | UnityProject/Assets/Scripts/CSharpScripts/Game/MazeData.cs:722-729 | relaxing only adds cells or lowers costs |
| PathSearch.RelaxKeepsClosedAt | UnityProject/Assets/Scripts/CSharpScripts/Game/MazeData.cs:722-729 | a closed cell stays closed after relaxing a neighbour of another cell |
| PathSearch.RelaxKeepsClosed | UnityProject/Assets/Scripts/CSharpScripts/Game/MazeData.cs:722-729 | relaxing keeps every cell but the one being expanded closed |
| PathSearch.RelaxKeepsPending | UnityProject/Assets/Scripts/CSharpScripts/Game/MazeData.cs:722-729 | relaxing keeps the goal pending |
| PathSearch.RelaxMeasure | UnityProject/Assets/Scripts/CSharpScripts/Game/MazeData.cs:722-729 | relaxing either adds a known cell or, with the same cells, lowers the total of the costs |
| PathSearch.ExpandStarts | UnityProject/Assets/Scripts/CSharpScripts/Game/MazeData.cs:718-720 | the expansion of a cell starts with its invariant holding |
| PathSearch.RelaxStep | UnityProject/Assets/Scripts/CSharpScripts/Game/MazeData.cs:722-729 | relaxing an open side that gives a new or cheaper cost advances the expansion's invariant by one side |
| PathSearch.RelaxBookkeeping | UnityProject/Assets/Scripts/CSharpScripts/Game/MazeData.cs:722-729 | relaxing keeps the lowered costs, the current cell's cost and the progress of the expansion |
| PathSearch.SkipStep | UnityProject/Assets/Scripts/CSharpScripts/Game/MazeData.cs:722-724 | a side that gives no cheaper cost is skipped, and the expansion's invariant still holds |
| PathSearch.ExpandDone | UnityProject/Assets/Scripts/CSharpScripts/Game/MazeData.cs:718-730 | once every open side is handled, the search invariant holds, every known cell is closed, and the goal is pending |
| PathSearch.FewerLeft | UnityProject/Assets/Scripts/CSharpScripts/Game/MazeData.cs:710-732 | a strictly larger set of known cells leaves fewer unknown cells |
| PathSearch.WalkLength | UnityProject/Assets/Scripts/CSharpScripts/Game/MazeData.cs:686-692 | no walk is shorter than the Manhattan distance between its ends: the heuristic never overestimates |
| PathSearch.ClosedReach | UnityProject/Assets/Scripts/CSharpScripts/Game/MazeData.cs:710-732 | when every known cell is expanded, every cell reachable from a known cell is known |
| PathSearch.FrontierOnWalk | UnityProject/Assets/Scripts/CSharpScripts/Game/MazeData.cs:710-732 | along any walk from a known cell, either the end is known at no more than the walk's cost, or some cell on the way is in the frontier at a bound cost |
| PathSearch.GoalCostIsShortest | UnityProject/Assets/Scripts/CSharpScripts/Game/MazeData.cs:712-716 | when the goal reaches the head of the frontier and no position is penalised, its cost is at most the length of every walk to it |
| PathSearch.Expand | UnityProject/Assets/Scripts/CSharpScripts/Game/MazeData.cs:718-730 | expanding a cell relaxes each of its open sides; afterwards the search invariant holds, every known cell is closed, and the loop makes progress |
| PathSearch.SearchRound | UnityProject/Assets/Scripts/CSharpScripts/Game/MazeData.cs:710-732 | one round: either the goal is found (and, with no penalised position, at its shortest cost) or the loop invariant holds with a lower measure |
| PathSearch.RunSearch | UnityProject/Assets/Scripts/CSharpScripts/Game/MazeData.cs:710-732 | after the main loop, a goal without a parent has no walk to it, and a goal reached with no penalised position has a cost no greater than any walk |
| PathSearch.Backtrack | UnityProject/Assets/Scripts/CSharpScripts/Game/MazeData.cs:753-761 | following the parents back from the goal gives, reversed, a walk from the start to the goal no longer than the goal's cost |
| MazeData.Maze.IsInMaze | UnityProject/Assets/Scripts/CSharpScripts/Game/MazeData.cs:660-664 | a position is in the maze exactly when it is one of the grid's cells, the set `AllCellsCount` proves to hold width × height positions |
| MazeData.Maze.constructor | UnityProject/Assets/Scripts/CSharpScripts/Game/MazeData.cs:500-508 | a new maze has the requested size, and when it is not empty, `Generate` leaves a carving tree rooted at (0, 0) |
| MazeData.Maze.Reset | UnityProject/Assets/Scripts/CSharpScripts/Game/MazeData.cs:554-557 | every cell becomes fully walled, or fully empty |
| MazeData.Maze.CarvePath | UnityProject/Assets/Scripts/CSharpScripts/Game/MazeData.cs:606-620 | carving succeeds exactly when the neighbour is inside the maze and the side is blocked; then both sides of the shared wall get the new state, and otherwise nothing changes; a well-formed grid stays well-formed |
| MazeData.Maze.CarveInto | UnityProject/Assets/Scripts/CSharpScripts/Game/MazeData.cs:597-601 | carving from a tree cell into a fully walled neighbour grows the carving tree by that cell |
| MazeData.Maze.CarvePathRecursive | UnityProject/Assets/Scripts/CSharpScripts/Game/MazeData.cs:590-604 | the recursion keeps a carving tree with the same root, and the tree only grows |
| MazeData.Maze.Generate | UnityProject/Assets/Scripts/CSharpScripts/Game/MazeData.cs:559-563 | a non-empty maze ends up as a carving tree rooted at (0, 0): see `MazeGrid.GeneratedTree` for its passages and walks |
| MazeData.Maze.CarveNextFrom | UnityProject/Assets/Scripts/CSharpScripts/Game/MazeData.cs:581-585 | the fallback scan finds a blocked side towards a neighbour inside the maze and opens the shared wall there, without a door |
| MazeData.Maze.BraidFallback | UnityProject/Assets/Scripts/CSharpScripts/Game/MazeData.cs:577-586 | when the middle wall cannot be opened, the first later blocked side is opened: the cell loses exactly one wall, no count rises, and no door appears |
| MazeData.Maze.BraidCell | UnityProject/Assets/Scripts/CSharpScripts/Game/MazeData.cs:567-586 | a cell with fewer than 3 walls is left as it is; from 3 walls on, it loses exactly one wall; no count rises, and without doors no door appears |
| MazeData.Maze.Braid | UnityProject/Assets/Scripts/CSharpScripts/Game/MazeData.cs:565-588 | after braiding, no cell has more than 3 walls, and no count is higher than before; if no cell was fully walled, every cell has at most 2 walls (no dead ends); without doors no door appears |
| MazeData.Maze.SetDoorPair | UnityProject/Assets/Scripts/CSharpScripts/Game/MazeData.cs:632-644 | the door side gets the new open or closed state, and its neighbour's matching side gets it too; the cell's other sides stay as they were, only door sides change, and nothing changes outside the cell and the sides facing it |
| MazeData.Maze.ShuffleSideDoor | UnityProject/Assets/Scripts/CSharpScripts/Game/MazeData.cs:628-644 | a door side takes the next value of the tape and gets the state it draws; a side that is not a door takes none and stays; the cell's other sides stay, and nothing changes outside the cell and the sides facing it |
| MazeData.Maze.ShuffleCellDoors | UnityProject/Assets/Scripts/CSharpScripts/Game/MazeData.cs:626-645 | each door side of the cell becomes the state drawn for it (closed exactly when its draw is below the chance), one draw per door side in direction order, the doors of the cell are settled, and nothing changes outside the cell and the sides facing it |
| MazeData.Maze.ShuffleRowCell | UnityProject/Assets/Scripts/CSharpScripts/Game/MazeData.cs:624-646 | visiting one more cell of a row keeps every door as the visits so far leave it, and the tape moves on by that cell's door sides |
| MazeData.Maze.ShuffleRowDoors | UnityProject/Assets/Scripts/CSharpScripts/Game/MazeData.cs:547-552 | a row draws exactly one value per door side of its cells, the tape after it is the tape after all rows so far, every door is as the visits up to the end of the row leave it, and the doors of every row up to it are settled |
| MazeData.Maze.ShuffleDoors | UnityProject/Assets/Scripts/CSharpScripts/Game/MazeData.cs:622-647 | each door side ends as the draw taken at the later of the two visits of its door pair, in row-major order; exactly one value is drawn per door side of the maze; every door ends up settled and only door sides change |
| MazeData.Maze.ForEachDoorWithCoord | UnityProject/Assets/Scripts/CSharpScripts/Game/MazeData.cs:523-537 | the reports are, row by row and cell by cell, the cell's West door and then its South door, each with whether it is open and the cell's coordinates |
| MazeData.Maze.ValidateMazeState | UnityProject/Assets/Scripts/CSharpScripts/Game/MazeData.cs:766-780 | the result is true exactly when every shared wall agrees on both sides and no cell inside has 4 walls, i.e. when none of the assertions fires |
| MazeData.Maze.FindBestPath | UnityProject/Assets/Scripts/CSharpScripts/Game/MazeData.cs:679-764 | the same position gives the empty path; a path is a walk from the start to the target; there is no path (the backtrack's lookup throws) exactly when the target is not reachable; with no penalised last position the path is a shortest walk |
| MazeData.CellReports | UnityProject/Assets/Scripts/CSharpScripts/Game/MazeData.cs:530-533 | a cell reports at most two doors |
| MazeData.ReportsOfCell | UnityProject/Assets/Scripts/CSharpScripts/Game/MazeData.cs:523-537 | the reports made at a cell are that cell's own reports |
| MazeData.CellReportsMembers | UnityProject/Assets/Scripts/CSharpScripts/Game/MazeData.cs:530-533 | a cell reports exactly the doors on its West and South sides |
| MazeData.ReportsOfTagged | UnityProject/Assets/Scripts/CSharpScripts/Game/MazeData.cs:523-537 | every report carries the coordinates of the cell that made it |
| MazeData.RowReportsMembers | UnityProject/Assets/Scripts/CSharpScripts/Game/MazeData.cs:527-535 | the reports of the first i cells of a row are exactly those cells' reports |
| MazeData.RowsReportsMembers | UnityProject/Assets/Scripts/CSharpScripts/Game/MazeData.cs:525-536 | the reports of the first j rows are exactly those rows' cells' reports |
| MazeData.DoorReportsExact | UnityProject/Assets/Scripts/CSharpScripts/Game/MazeData.cs:523-537 | a door report is made exactly when its cell has a door on that West or South side |
| MazeData.EveryDoorReported | UnityProject/Assets/Scripts/CSharpScripts/Game/MazeData.cs:523-537 | in a well-formed maze every door is reported once, by the cell it is the West or South side of |
| MazeData.Drawn | UnityProject/Assets/Scripts/CSharpScripts/Game/MazeData.cs:636-644 | a drawn door state is a door, and it is closed exactly when the draw is below the chance |
| MazeData.UnitsCellDrawn | UnityProject/Assets/Scripts/CSharpScripts/Game/MazeData.cs:626-645 | a cell visit whose door sides take, in direction order, the values that follow the draws of the cells before it leaves every door as the visits up to that cell leave it |
| MazeData.RowDone | UnityProject/Assets/Scripts/CSharpScripts/Game/MazeData.cs:547-552 | at the end of a row, the doors are as at the start of the next row, the doors of the rows so far are settled, and the tape left is the one after those rows |
| MazeData.DrawnRowsSettled | UnityProject/Assets/Scripts/CSharpScripts/Game/MazeData.cs:622-647 | doors left as the visits of the first rows set them are settled in those rows |
| MazeData.UnitsShuffled | UnityProject/Assets/Scripts/CSharpScripts/Game/MazeData.cs:622-647 | after every row is visited, each door is the draw of the later visit of its pair, every door is settled, and the grid is a redraw of the old one |
| MazeMonster.FirstLeast | UnityProject/Assets/Scripts/CSharpScripts/Game/MazeData.cs:849 | `OrderBy(...).ElementAt(0)`: the index of a candidate with the fewest visits, and the first such, since the sort is stable |
| MazeMonster.Monster.constructor | UnityProject/Assets/Scripts/CSharpScripts/Game/MazeData.cs:788-796 | the monster starts at the given position with no last move and a zero visit count everywhere |
| MazeMonster.Monster.Move | UnityProject/Assets/Scripts/CSharpScripts/Game/MazeData.cs:798-810 | a blocked side leaves everything unchanged (the assertion only logs); otherwise the visit count of the cell left goes up, and the monster steps and records the move |
| MazeMonster.Monster.CanTravelTo | UnityProject/Assets/Scripts/CSharpScripts/Game/MazeData.cs:874-885 | the corrected `CanTravelTo`: a direction the monster can travel is a real one (never `Count`), leads to a cell of the maze and crosses an unblocked side; `TravelMeansOpen` gives the converse |
| MazeMonster.Monster.CanTravelToAsWritten | UnityProject/Assets/Scripts/CSharpScripts/Game/MazeData.cs:874-883 | the source's lookup: it throws (no result) exactly for `Count`, and otherwise agrees with `CanTravelTo` |
| MazeMonster.Monster.TravelMeansOpen | UnityProject/Assets/Scripts/CSharpScripts/Game/MazeData.cs:874-883 | the monster can travel in a direction exactly when that side of its cell is not blocked |
| MazeMonster.Monster.LastPos | UnityProject/Assets/Scripts/CSharpScripts/Game/MazeData.cs:854-862 | the penalised position is the cell the last move came from, or (-1, -1) when the previous position is not considered or there was no move yet |
| MazeMonster.Monster.LastPosAsWritten | UnityProject/Assets/Scripts/CSharpScripts/Game/MazeData.cs:854-862 | the source's lookup of the previous position throws exactly when it is considered before any move; otherwise it agrees with `LastPos` |
| MazeMonster.Monster.HomeIn | UnityProject/Assets/Scripts/CSharpScripts/Game/MazeData.cs:852-872 | no path exactly when the target is unreachable, and then nothing moves; at the target the path is empty; otherwise the monster takes the first step and the rest is a walk from its new cell to the target, shortest when no previous position is penalised |
| MazeMonster.Monster.CandidatesFramed | UnityProject/Assets/Scripts/CSharpScripts/Game/MazeData.cs:817-832 | the candidate list depends only on the maze, the position and the visit counts |
| MazeMonster.Monster.CandidatesSnoc | UnityProject/Assets/Scripts/CSharpScripts/Game/MazeData.cs:821-832 | one more direction adds a candidate exactly when it is not excluded and can be travelled, with the visit count of the cell it leads to |
| MazeMonster.Monster.CandidatesMembers | UnityProject/Assets/Scripts/CSharpScripts/Game/MazeData.cs:817-832 | the candidates are exactly the listed, not excluded, travellable directions with their next cell's visit count |
| MazeMonster.Monster.Gather | UnityProject/Assets/Scripts/CSharpScripts/Game/MazeData.cs:821-832 | the loop collects exactly the candidates of the given order |
| MazeMonster.Monster.GatherShuffled | UnityProject/Assets/Scripts/CSharpScripts/Game/MazeData.cs:817-832 | the shared buffer is shuffled in place, and the candidates are those of the new order, excluding the way back |
| MazeMonster.Monster.Fallback | UnityProject/Assets/Scripts/CSharpScripts/Game/MazeData.cs:834-841 | a fallback move is a travellable direction; there is one exactly when the last move or its opposite is travellable, and the last move is preferred |
| MazeMonster.Monster.Unmoved | UnityProject/Assets/Scripts/CSharpScripts/Game/MazeData.cs:834-841 | when nothing changes, the monster stays and its fallback is the same |
| MazeMonster.Monster.Decide | UnityProject/Assets/Scripts/CSharpScripts/Game/MazeData.cs:834-849 | with no candidates, the fallback is taken if there is one; with more than one candidate and a draw below the chance, `HomeIn` decides (it succeeds exactly when the target is reachable); otherwise the monster moves to the first least-visited candidate; one draw is used only when there is more than one candidate |
| MazeMonster.Monster.Wander | UnityProject/Assets/Scripts/CSharpScripts/Game/MazeData.cs:812-850 | at the target nothing happens and no draw is used; otherwise the buffer is shuffled, the candidates are those of the new order, and the move is as in `Decide` |
| MazeMonster.FirstHomeInLookupThrows | UnityProject/Assets/Scripts/CSharpScripts/Game/MazeData.cs:857-861 | before the first move, considering the previous position looks up the delta of `Opposite(Count)`, which throws |
| MazeMonster.FallbackLookupThrows | UnityProject/Assets/Scripts/CSharpScripts/Game/MazeData.cs:834-836 | a monster boxed in before its first move has no candidates, and then `CanTravelTo(mLastMove)` looks up the delta of `Count`, which throws |
| MazeFun.AbsorbChild | Cpp/MazeFun.cpp:418-432 | after the recursive call from a new neighbour returns, every cell reached so far, apart from the base set, has all its in-grid neighbours reached |
| MazeFun.HandledOneMore | Cpp/MazeFun.cpp:420-431 | handling one more direction of the random order keeps every handled neighbour inside the grid reached |
| MazeFun.HandledAll | Cpp/MazeFun.cpp:63-72 | once all four directions of the order are handled, every neighbour of the cell inside the grid is reached |
| MazeFun.OpenCellIsVisited | Cpp/MazeFun.cpp:418-432 | during carving, a cell that is not fully walled is in the tree |
| MazeFun.SurroundedCoversGrid | Cpp/MazeFun.cpp:208-212 | a set holding (0, 0) where every cell has all its in-grid neighbours is the whole grid |
| MazeFun.Covered | Cpp/MazeFun.cpp:208-212 | such a set contains every cell (i, j), by induction on i + j |
| MazeFun.FullTreeSpans | Cpp/MazeFun.cpp:208-212 | a carving tree from (0, 0) that covers the grid is a spanning tree: every cell has a walk to (0, 0), and there are exactly width × height − 1 passages |
| MazeFun.EmptySideIsHole | Cpp/MazeFun.cpp:108-114 | a cell with an empty side has a first hole |
| MazeFun.HoleIsOpening | Cpp/MazeFun.cpp:108-114 | a cell with a hole has fewer than 4 walls |
| MazeFun.HolesStay | Cpp/MazeFun.cpp:214-237 | a grid where every cell has a hole keeps that property through a change that keeps every hole |
| MazeFun.HolesMakeValid | Cpp/MazeFun.cpp:376-390 | a symmetric grid where every cell has a hole passes validation |
| MazeFun.OpenCellHasHole | Cpp/MazeFun.cpp:108-114 | in a grid without doors, a cell that is not fully walled has an empty side |
| MazeFun.FullTreeHasHoles | Cpp/MazeFun.cpp:208-212 | after carving a spanning tree on more than one cell, every cell has a hole |
| MazeFun.CarveKeepsHoles | Cpp/MazeFun.cpp:434-448 | opening a blocked shared wall removes no hole |
| MazeFun.RedrawnKeepsHoles | Cpp/MazeFun.cpp:251-277 | redrawing doors removes no hole, since an empty side is never a door |
| MazeFun.DrawnRand | Cpp/MazeFun.cpp:253-274 | a drawn door is closed exactly when `rand() % 100` is below the chance scaled by 100 |
| MazeFun.IntsCellDrawn | Cpp/MazeFun.cpp:256-275 | a cell visit whose door sides take, in direction order, the values of `rand()` that follow the draws of the cells before it leaves every door as the visits up to that cell leave it |
| MazeFun.ColumnDone | Cpp/MazeFun.cpp:406-411 | at the end of a column, the doors are as at the start of the next column, the doors of the columns so far are settled, and the tape left is the one after those columns |
| MazeFun.DrawnColumnsSettled | Cpp/MazeFun.cpp:251-277 | doors left as the visits of the first columns set them are settled in those columns |
| MazeFun.IntsShuffled | Cpp/MazeFun.cpp:251-277 | after every column is visited, each door is the draw of the later visit of its pair, every door is settled, the grid is a redraw of the old one and no hole was closed |
| MazeFun.BaseMaze.IsInMaze | Cpp/MazeFun.cpp:239-243 | a position is in the maze exactly when it is one of the grid's cells, the set `AllCellsCount` proves to hold width × height positions |
| MazeFun.BaseMaze.constructor | Cpp/MazeFun.cpp:490-501 | `Maze(w, h)` sizes the grid and generates it: no doors, a spanning tree from (0, 0), and every cell with a hole when there is more than one cell |
| MazeFun.BaseMaze.Reset | Cpp/MazeFun.cpp:413-416 | every cell becomes fully walled, or fully empty, scanned column by column |
| MazeFun.BaseMaze.CarvePath | Cpp/MazeFun.cpp:434-448 | carving succeeds exactly when the neighbour is inside and the side is blocked; then both sides of the shared wall get the new state, and otherwise nothing changes |
| MazeFun.BaseMaze.CarveInto | Cpp/MazeFun.cpp:429-430 | carving from a tree cell into a fully walled neighbour grows the carving tree by that cell |
| MazeFun.BaseMaze.CarvePathRecursive | Cpp/MazeFun.cpp:418-432 | the recursion keeps a carving tree with the same root, and on return every cell it added, and the start, has all its in-grid neighbours in the tree |
| MazeFun.BaseMaze.Generate | Cpp/MazeFun.cpp:208-212 | the maze becomes a door-free spanning tree from (0, 0), and with more than one cell every cell has a hole |
| MazeFun.BaseMaze.CarveNextFrom | Cpp/MazeFun.cpp:230-234 | the fallback scan finds a blocked side towards a neighbour inside the maze and opens the shared wall there |
| MazeFun.BaseMaze.BraidFallback | Cpp/MazeFun.cpp:226-235 | the cell loses exactly one wall, no count rises, no hole disappears, and no door appears |
| MazeFun.BaseMaze.BraidCell | Cpp/MazeFun.cpp:216-236 | a cell with fewer than 3 walls is left as it is; from 3 walls on, it loses exactly one; no count rises, holes stay, and without doors no door appears |
| MazeFun.BaseMaze.Braid | Cpp/MazeFun.cpp:214-237 | after braiding, no cell has more than 3 walls; if no cell was fully walled, none has more than 2; no count is higher than before, holes stay, and without doors no door appears |
| MazeFun.BaseMaze.BraidColumn | Cpp/MazeFun.cpp:408-410 | braiding one column leaves each of its cells with at most max(2, its count − 1) walls |
| MazeFun.BaseMaze.SetDoorPair | Cpp/MazeFun.cpp:263-274 | the door side and its neighbour's matching side get the new state, only door sides change, and nothing changes outside the cell and the sides facing it |
| MazeFun.BaseMaze.ShuffleCellDoors | Cpp/MazeFun.cpp:256-275 | each door side of the cell becomes the state drawn for it from `rand()`, one draw per door side in direction order, the cell's doors are settled, and nothing changes outside the cell and the sides facing it |
| MazeFun.BaseMaze.ShuffleSideDoor | Cpp/MazeFun.cpp:258-274 | a door side takes one draw and gets the drawn state; a side that is not a door takes none and stays; nothing changes outside the cell and the sides facing it |
| MazeFun.BaseMaze.ShuffleDoors | Cpp/MazeFun.cpp:251-277 | each door side ends as the draw of `rand()` taken at the later of the two visits of its door pair, in column-major order; exactly one value is drawn per door side; every door ends up settled, only door sides change and holes stay |
| MazeFun.BaseMaze.ShuffleColumnDoors | Cpp/MazeFun.cpp:406-411 | a column draws exactly one value per door side of its cells, the tape after it is the tape after all columns so far, every door is as the visits up to the end of the column leave it, and the doors of every column up to it are settled |
| MazeFun.BaseMaze.ShuffleColumnCell | Cpp/MazeFun.cpp:254-276 | visiting one more cell of a column keeps every door as the visits so far leave it, and the tape moves on by that cell's door sides |
| MazeFun.BaseMaze.FindBestPath | Cpp/MazeFun.cpp:280-374 | no path exactly when an endpoint lies outside or the target is unreachable; otherwise the path is a shortest walk from the start to the target, empty when they coincide |
| MazeFun.BaseMaze.ValidateMazeState | Cpp/MazeFun.cpp:376-390 | true exactly when every shared wall agrees on both sides and no cell has 4 walls towards a neighbour |
| MazeFunMonster.Monster.constructor | Cpp/MazeFun.cpp:517-527 | the monster starts at (0, 0) with no last move and a zero visit count everywhere |
| MazeFunMonster.Monster.Move | Cpp/MazeFun.cpp:529-541 | the move succeeds exactly when the side is not blocked; then the cell left gets one more visit and the monster steps, and otherwise nothing changes |
| MazeFunMonster.Monster.CanTravelTo | Cpp/MazeFun.cpp:629-638 | a direction the monster can travel leads to a cell of the maze and crosses a side that is neither a wall nor a closed door; `TravelMeansOpen` gives the converse |
| MazeFunMonster.Monster.TravelMeansOpen | Cpp/MazeFun.cpp:629-638 | the monster can travel in a direction exactly when that side of its cell is not blocked |
| MazeFunMonster.Monster.HomeIn | Cpp/MazeFun.cpp:591-601 | success exactly when the target is in the maze, is not the current cell, and is reachable; then the monster takes the first step and the rest is a shortest walk from its new cell; otherwise nothing moves |
| MazeFunMonster.Monster.CandidatesSnoc | Cpp/MazeFun.cpp:553-564 | one more direction adds a candidate exactly when it is not excluded and can be travelled |
| MazeFunMonster.Monster.CandidatesMembers | Cpp/MazeFun.cpp:553-564 | the candidates are exactly the listed, not excluded, travellable directions with their next cell's visit count |
| MazeFunMonster.Monster.Gather | Cpp/MazeFun.cpp:553-564 | the loop collects exactly the candidates of the given order |
| MazeFunMonster.Monster.Decide | Cpp/MazeFun.cpp:567-587 | with no candidates: the last move if travellable, else the way back, taken unchecked (no move at all before a first move); with more than one candidate and a draw below the chance, `HomeIn` decides; otherwise a least-visited candidate is taken; one draw only with more than one candidate |
| MazeFunMonster.Monster.Wander | Cpp/MazeFun.cpp:543-588 | one `rand()` is drawn and ignored, a fresh order is shuffled, the candidates are those of that order, and the move is as in `Decide`; there is no stop at the target |
| MazeFunMonster.TopLine | Cpp/MazeFun.cpp:656-660 | the top border has two characters per column |
| MazeFunMonster.RowCells | Cpp/MazeFun.cpp:665-675 | a row's cells have two characters per column |
| MazeFunMonster.RowLine | Cpp/MazeFun.cpp:663-679 | a drawn row is two characters per column, then the east border and a newline |
| MazeFunMonster.Drawing | Cpp/MazeFun.cpp:651-682 | the drawing of j rows has the length of the top line plus j rows |
| MazeFunMonster.OutputToConsole | Cpp/MazeFun.cpp:651-682 | the text built is the drawing of all the rows with the monster's cell marked |
| MazeFunMonster.DrawTop | Cpp/MazeFun.cpp:656-660 | the top line loop builds the top border |
| MazeFunMonster.DrawRow | Cpp/MazeFun.cpp:665-675 | the inner loop builds the row's cells |
| MazeFunMonster.RowStartGrows | Cpp/MazeFun.cpp:663-679 | each later row starts at least a whole row further on |
| MazeFunMonster.TopLineAt | Cpp/MazeFun.cpp:656-660 | column i of the top line is a space, then the cell's North character |
| MazeFunMonster.RowCellsAt | Cpp/MazeFun.cpp:665-675 | column i of a row is the cell's West character, then '*' at the monster or the cell's South character |
| MazeFunMonster.DrawingPrefix | Cpp/MazeFun.cpp:651-682 | drawing fewer rows gives a prefix of the drawing |
| MazeFunMonster.DrawingTop | Cpp/MazeFun.cpp:656-661 | the drawing starts with the top border (a space and the North character per column) and a newline |
| MazeFunMonster.DrawingCell | Cpp/MazeFun.cpp:665-675 | each cell shows at its place in the drawing as its West character and its South character, or '*' where the monster is |
| MazeFunMonster.DrawingRowEnd | Cpp/MazeFun.cpp:677-678 | each row ends with the East character of its last cell and a newline |
| MazeFunMonster.RowLineEnd | Cpp/MazeFun.cpp:677-678 | a drawn row ends with the East character of its last cell and a newline |
| MazeFunMonster.RowInDrawing | Cpp/MazeFun.cpp:663-679 | every row appears whole at its place in the drawing |
| Instructors.Live | UnityProject/Backup/Assets/Scripts/CSharpScripts/Instructors/Containers/InstructorProcessor.cs:83-84 | the records of the list: as many as the count, record i held in slot i |
| Instructors.LiveDetermines | UnityProject/Backup/Assets/Scripts/CSharpScripts/Instructors/Containers/InstructorProcessor.cs:83-84 | two slot arrays holding the same records are the same slots with the same count |
| Instructors.Released | UnityProject/Backup/Assets/Scripts/CSharpScripts/Instructors/Containers/InstructorProcessor.cs:378-381 | finishing a record that releases a priority empties that priority and keeps the others |
| Instructors.Terminated | UnityProject/Backup/Assets/Scripts/CSharpScripts/Instructors/Containers/InstructorProcessor.cs:375-381 | a finished record installs its container at its own priority and empties the priority it releases; nothing else changes |
| Instructors.AboveMembers | UnityProject/Backup/Assets/Scripts/CSharpScripts/Instructors/Containers/InstructorProcessor.cs:238-262 | the records a cut at p keeps are exactly the listed ones of priority above p, and there are no more of them than before |
| Instructors.CutAllKeeps | UnityProject/Backup/Assets/Scripts/CSharpScripts/Instructors/Containers/InstructorProcessor.cs:238-262 | a priority that no record at or below the cut releases, and, when it is below the cut, that no record installs, keeps its container through the cut |
| Instructors.CutAllSnoc | UnityProject/Backup/Assets/Scripts/CSharpScripts/Instructors/Containers/InstructorProcessor.cs:238-262 | the cut deals with the records one at a time, from the front, and keeps exactly those above it |
| Instructors.FinishAll | UnityProject/Backup/Assets/Scripts/CSharpScripts/Instructors/Containers/InstructorProcessor.cs:395-409 | finishing records one after another leaves the last one's priority current, and finishing none changes nothing |
| Instructors.FinishAllSnoc | UnityProject/Backup/Assets/Scripts/CSharpScripts/Instructors/Containers/InstructorProcessor.cs:401-404 | finishing one record more applies `TerminateFirstTransition` once more |
| Instructors.Finished | UnityProject/Backup/Assets/Scripts/CSharpScripts/Instructors/Containers/InstructorProcessor.cs:397-400 | the number of records to finish reaches up to the last one whose completion is at least 1, and every record after it is unfinished |
| Instructors.BeingReleasedMeans | UnityProject/Backup/Assets/Scripts/CSharpScripts/Instructors/Containers/InstructorProcessor.cs:123-139 | a priority is being released exactly when some record releases it and no later record releases it or is of that priority |
| Instructors.EmptyListHigherReleased | UnityProject/Backup/Assets/Scripts/CSharpScripts/Instructors/Containers/InstructorProcessor.cs:160-171 | with an empty list, `HigherPrioritiesBeingReleased` holds exactly when no container above the priority is set |
| Instructors.LastContainerInstalled | UnityProject/Backup/Assets/Scripts/CSharpScripts/Instructors/Containers/InstructorProcessor.cs:208-219 | with no record of priority q, the last container is the one installed at q |
| Instructors.LastContainerListed | UnityProject/Backup/Assets/Scripts/CSharpScripts/Instructors/Containers/InstructorProcessor.cs:208-216 | with records of priority q, the last container is the container of the last such record |
| Instructors.LastContainerCoherent | UnityProject/Backup/Assets/Scripts/CSharpScripts/Instructors/Containers/InstructorProcessor.cs:208-219 | the last container found for q has priority q |
| Instructors.FirstAbove | UnityProject/Backup/Assets/Scripts/CSharpScripts/Instructors/Containers/InstructorProcessor.cs:277-280 | the insertion point is after every record of priority at most q and at the first record above q (or at the end when there is none) |
| Instructors.HighestBelow | UnityProject/Backup/Assets/Scripts/CSharpScripts/Instructors/Containers/InstructorProcessor.cs:421-430 | the new current priority after a release cut is the highest set priority below the released one, or none when there is none between None and it |
| Instructors.NearestBelow | UnityProject/Backup/Assets/Scripts/CSharpScripts/Instructors/Containers/InstructorProcessor.cs:347-351 | the priority a release hands over to is the highest one below the released one with a last container, or none |
| Instructors.InsertInto | UnityProject/Backup/Assets/Scripts/CSharpScripts/Instructors/Containers/InstructorProcessor.cs:273-295 | `InsertTransition` on the list. A record is placed by its insertion priority (`InsertionPriority`: the priority it releases, if any, and otherwise its own). With no listed record above that priority nothing is inserted. Otherwise the record goes before the first such record, and a full list gives `None`, the corrected behaviour |
| Instructors.InsertIntoPlaces | UnityProject/Backup/Assets/Scripts/CSharpScripts/Instructors/Containers/InstructorProcessor.cs:277-292 | an inserted record sits after every record of no higher insertion priority and before the rest, which keep their order: a list one longer, with the same records plus the new one |
| Instructors.InsertAsWritten | UnityProject/Backup/Assets/Scripts/CSharpScripts/Instructors/Containers/InstructorProcessor.cs:273-295 | `InsertTransition` as written on the four slots and the count: the slots stay four, those before the insertion point keep their records, and the count grows by one exactly when a record of higher insertion priority is listed, with no check of the capacity |
| Instructors.InsertAsWrittenOverflows | UnityProject/Backup/Assets/Scripts/CSharpScripts/Instructors/Containers/InstructorProcessor.cs:281-290 | on a full list the code as written counts five records and drops the record in the last slot |
| Instructors.InsertAsWrittenWithRoom | UnityProject/Backup/Assets/Scripts/CSharpScripts/Instructors/Containers/InstructorProcessor.cs:281-290 | with room in the list, the code as written does what `InsertInto` does |
| Instructors.AppendTo | UnityProject/Backup/Assets/Scripts/CSharpScripts/Instructors/Containers/InstructorProcessor.cs:310-316 | appending adds the record at the end when there is a free slot, and fails (the write throws) on a full list |
| Instructors.CutReleased | UnityProject/Backup/Assets/Scripts/CSharpScripts/Instructors/Containers/InstructorProcessor.cs:414-432 | `ReleasePriorityCut` acts only when the transition is the container at its priority. That container is removed and no other container changes. The current priority drops to the highest set one strictly below it, and to None when the transition itself is of priority None: the source's assertion against that only logs |
| Instructors.InstructorProcessor.constructor | UnityProject/Backup/Assets/Scripts/CSharpScripts/Instructors/Containers/InstructorProcessor.cs:21-84 | a new processor has no containers, no records, count 0 and priority None |
| Instructors.InstructorProcessor.Reset | UnityProject/Backup/Assets/Scripts/CSharpScripts/Instructors/Containers/InstructorProcessor.cs:437-456 | every container and slot is emptied, the count is 0 and the priority None |
| Instructors.InstructorProcessor.RemoveSlot | UnityProject/Backup/Assets/Scripts/CSharpScripts/Instructors/Containers/InstructorProcessor.cs:253-259 | removing slot i shifts the later records down by one and nulls the last slot |
| Instructors.InstructorProcessor.InsertSlot | UnityProject/Backup/Assets/Scripts/CSharpScripts/Instructors/Containers/InstructorProcessor.cs:283-290 | inserting at slot i shifts the later records up by one and puts the record at i |
| Instructors.InstructorProcessor.Append | UnityProject/Backup/Assets/Scripts/CSharpScripts/Instructors/Containers/InstructorProcessor.cs:310-316 | the record is appended at the end if there is a free slot; otherwise nothing changes |
| Instructors.InstructorProcessor.TerminateFirstTransition | UnityProject/Backup/Assets/Scripts/CSharpScripts/Instructors/Containers/InstructorProcessor.cs:373-390 | the head record is removed from the list, and it installs its container and priority (`FinishOne`) |
| Instructors.InstructorProcessor.AddCut | UnityProject/Backup/Assets/Scripts/CSharpScripts/Instructors/Containers/InstructorProcessor.cs:233-268 | the container is installed at once; the records at or below its priority are dealt with in order and removed (lower ones finish, equal ones only release), the higher ones are kept, and the priority rises to the cut's if it is higher |
| Instructors.InstructorProcessor.DropRecord | UnityProject/Backup/Assets/Scripts/CSharpScripts/Instructors/Containers/InstructorProcessor.cs:240-260 | one record at or below the cut's priority is dealt with and removed from the list |
| Instructors.InstructorProcessor.IsPriorityBeingReleased | UnityProject/Backup/Assets/Scripts/CSharpScripts/Instructors/Containers/InstructorProcessor.cs:123-139 | the loop computes `BeingReleased` over the list |
| Instructors.InstructorProcessor.HigherPriorityInList | UnityProject/Backup/Assets/Scripts/CSharpScripts/Instructors/Containers/InstructorProcessor.cs:144-155 | the loop finds a record above the priority that is not being released, exactly when one exists |
| Instructors.InstructorProcessor.HigherPrioritiesBeingReleased | UnityProject/Backup/Assets/Scripts/CSharpScripts/Instructors/Containers/InstructorProcessor.cs:160-186 | the result is exactly `HigherReleased`: nothing above the priority is on its way in |
| Instructors.InstructorProcessor.IsLastAddedTransition | UnityProject/Backup/Assets/Scripts/CSharpScripts/Instructors/Containers/InstructorProcessor.cs:191-202 | true exactly when the transition is the last container for its priority |
| Instructors.InstructorProcessor.GetLastContainer | UnityProject/Backup/Assets/Scripts/CSharpScripts/Instructors/Containers/InstructorProcessor.cs:208-219 | the result is the container of the last record of that priority, or the installed one |
| Instructors.InstructorProcessor.InsertTransition | UnityProject/Backup/Assets/Scripts/CSharpScripts/Instructors/Containers/InstructorProcessor.cs:273-295 | succeeds exactly when `InsertInto` has a result, and the list becomes that result; otherwise the list is unchanged |
| Instructors.InstructorProcessor.AddTransition | UnityProject/Backup/Assets/Scripts/CSharpScripts/Instructors/Containers/InstructorProcessor.cs:300-327 | four cases: a repeat changes nothing; with nothing above it on its way in, a new record (`NewInfo`: heading for t at t's priority, releasing nothing, completion 0) is appended; below the current priority the container is installed at once; otherwise that record is inserted as `InsertInto` places it |
| Instructors.InstructorProcessor.ReleasePriorityCut | UnityProject/Backup/Assets/Scripts/CSharpScripts/Instructors/Containers/InstructorProcessor.cs:414-432 | leaves the list alone and acts on the containers and the priority as `CutReleased` says, priority None included |
| Instructors.InstructorProcessor.ReleasePriority | UnityProject/Backup/Assets/Scripts/CSharpScripts/Instructors/Containers/InstructorProcessor.cs:332-367 | nothing happens unless the transition is the last container of its priority. When the current priority is above the transition's, it is a release cut. Otherwise the nearest lower priority with a last container gets a new record (`NewInfo`: heading for that container, releasing the transition's priority). It is inserted when a higher record is listed and appended otherwise. For a transition of priority None there is no lower priority, so nothing is listed |
| Instructors.InstructorProcessor.RemoveFinishedTransitions | UnityProject/Backup/Assets/Scripts/CSharpScripts/Instructors/Containers/InstructorProcessor.cs:395-409 | every record up to the last finished one is finished and removed from the front in order, and every record left is unfinished |
| Instructors.InstructorProcessor.TerminateFirstTransitions | UnityProject/Backup/Assets/Scripts/CSharpScripts/Instructors/Containers/InstructorProcessor.cs:401-404 | terminating the first k records removes them from the front, and they finish in order |
| InstructorTests.Heading | UnityProject/Backup/Assets/Scripts/CSharpScripts/UnitTests/Camera/TestUtilitiesInstructorCamera.cs:71-86 | what `Check.Transitions` compares: for each slot, null or the record's container |
| InstructorTests.CutAllSameKeeps | UnityProject/Backup/Assets/Scripts/CSharpScripts/Instructors/Containers/InstructorProcessor.cs:240-250 | a cut at p through records of priority p that release nothing drops them and changes no container |
| InstructorTests.Listing | UnityProject/Backup/Assets/Scripts/CSharpScripts/Instructors/Containers/InstructorProcessor.cs:307-317 | a transition with nothing above it on its way in is appended to the list, and the containers stay |
| InstructorTests.SetUp | UnityProject/Backup/Assets/Scripts/CSharpScripts/UnitTests/Camera/TestUtilitiesInstructorCamera.cs:241-257 | the tests start from a cut to P0T2C01: it is installed at None and the list is empty |
| InstructorTests.Zone1Cut | UnityProject/Backup/Assets/Scripts/CSharpScripts/UnitTests/Camera/TestUtilitiesInstructorCamera.cs:279-288 | `SetInitialContainerState(P0T2C01, P1T1C00, null, null)`: zone 1 installed and current |
| InstructorTests.Zone1CutReleased | UnityProject/Backup/Assets/Scripts/CSharpScripts/UnitTests/Camera/TestInstructorCameraMedium.cs:70-77 | releasing P1T1C00 from there lists a record heading back to P0T2C01 |
| InstructorTests.Zone1Pending | UnityProject/Backup/Assets/Scripts/CSharpScripts/UnitTests/Camera/TestUtilitiesInstructorCamera.cs:293-318 | one zone-1 transition pending |
| InstructorTests.Zone0Inserted | UnityProject/Backup/Assets/Scripts/CSharpScripts/UnitTests/Camera/TestInstructorCameraHard.cs:80-89 | a zone-0 transition is inserted before the pending zone-1 one |
| InstructorTests.Zone1Released | UnityProject/Backup/Assets/Scripts/CSharpScripts/UnitTests/Camera/TestInstructorCameraHard.cs:59-68 | the release of P1T1C00 heads back to P0T1C00, the last zone-0 container listed |
| InstructorTests.Zone0Pending | UnityProject/Backup/Assets/Scripts/CSharpScripts/UnitTests/Camera/TestUtilitiesInstructorCamera.cs:293-318 | one zone-0 transition pending |
| InstructorTests.ThreePending | UnityProject/Backup/Assets/Scripts/CSharpScripts/UnitTests/Camera/TestUtilitiesInstructorCamera.cs:293-318 | three transitions pending |
| InstructorTests.FourPending | UnityProject/Backup/Assets/Scripts/CSharpScripts/UnitTests/Camera/TestUtilitiesInstructorCamera.cs:293-318 | four transitions pending |
| InstructorTests.FourZone1Pending | UnityProject/Backup/Assets/Scripts/CSharpScripts/UnitTests/Camera/TestUtilitiesInstructorCamera.cs:293-318 | four zone-1 transitions pending: each one is appended |
| InstructorTests.TrivialAddCut | UnityProject/Backup/Assets/Scripts/CSharpScripts/UnitTests/Camera/TestInstructorCameraTrivial.cs:28-32 | the containers and slots after `Cut[P0T1C00]` are those the test checks |
| InstructorTests.TrivialAddTransition | UnityProject/Backup/Assets/Scripts/CSharpScripts/UnitTests/Camera/TestInstructorCameraTrivial.cs:44-50 | the slots after `Transition[P0T1C00]` list it, as the test checks |
| InstructorTests.EasyOverrideTransition | UnityProject/Backup/Assets/Scripts/CSharpScripts/UnitTests/Camera/TestInstructorCameraEasy.cs:20-27 | the final containers and slots of the test |
| InstructorTests.EasyInterruptTransitionWithCut | UnityProject/Backup/Assets/Scripts/CSharpScripts/UnitTests/Camera/TestInstructorCameraEasy.cs:81-86 | the final containers and slots of the test |
| InstructorTests.EasyInterruptMultipleTransitionsWithCut | UnityProject/Backup/Assets/Scripts/CSharpScripts/UnitTests/Camera/TestInstructorCameraEasy.cs:96-101 | the final containers and slots of the test |
| InstructorTests.EasyTransitionToItself | UnityProject/Backup/Assets/Scripts/CSharpScripts/UnitTests/Camera/TestInstructorCameraEasy.cs:123-127 | the final containers and slots of the test |
| InstructorTests.EasyTransitionInSandwich | UnityProject/Backup/Assets/Scripts/CSharpScripts/UnitTests/Camera/TestInstructorCameraEasy.cs:138-143 | the final containers and slots of the test |
| InstructorTests.EasyAddingSameTransitionTwice | UnityProject/Backup/Assets/Scripts/CSharpScripts/UnitTests/Camera/TestInstructorCameraEasy.cs:153-158 | the final containers and slots of the test |
| InstructorTests.EasyTransitionInATransitionSandwich | UnityProject/Backup/Assets/Scripts/CSharpScripts/UnitTests/Camera/TestInstructorCameraEasy.cs:168-173 | the final containers and slots of the test |
| InstructorTests.MediumAddPriorityCut | UnityProject/Backup/Assets/Scripts/CSharpScripts/UnitTests/Camera/TestInstructorCameraMedium.cs:18-23 | the final containers and slots of the test |
| InstructorTests.MediumAddPriorityTransition | UnityProject/Backup/Assets/Scripts/CSharpScripts/UnitTests/Camera/TestInstructorCameraMedium.cs:35-42 | the containers and slots the test checks right after the command |
| InstructorTests.MediumChangeInactivePriority | UnityProject/Backup/Assets/Scripts/CSharpScripts/UnitTests/Camera/TestInstructorCameraMedium.cs:52-58 | the final containers and slots of the test |
| InstructorTests.MediumReleasePriority | UnityProject/Backup/Assets/Scripts/CSharpScripts/UnitTests/Camera/TestInstructorCameraMedium.cs:70-77 | the containers and slots the test checks right after the release |
| InstructorTests.MediumReleaseInactivePriority | UnityProject/Backup/Assets/Scripts/CSharpScripts/UnitTests/Camera/TestInstructorCameraMedium.cs:87-92 | the final containers and slots of the test |
| InstructorTests.MediumReleasePriorityCut | UnityProject/Backup/Assets/Scripts/CSharpScripts/UnitTests/Camera/TestInstructorCameraMedium.cs:102-107 | the final containers and slots of the test |
| InstructorTests.MediumReleaseInactivePriorityCut | UnityProject/Backup/Assets/Scripts/CSharpScripts/UnitTests/Camera/TestInstructorCameraMedium.cs:117-122 | the final containers and slots of the test |
| InstructorTests.MediumCutToHigherPriorityWhileTransition | UnityProject/Backup/Assets/Scripts/CSharpScripts/UnitTests/Camera/TestInstructorCameraMedium.cs:157-162 | the final containers and slots of the test |
| InstructorTests.HardCutDuringPriorityRelease | UnityProject/Backup/Assets/Scripts/CSharpScripts/UnitTests/Camera/TestInstructorCameraHard.cs:19-25 | the containers and slots the test checks after the cut |
| InstructorTests.HardCancelPriorityTransition | UnityProject/Backup/Assets/Scripts/CSharpScripts/UnitTests/Camera/TestInstructorCameraHard.cs:37-45 | the containers and slots the test checks before its wait |
| InstructorTests.HardInsertReleasePriorityWhileInProgress | UnityProject/Backup/Assets/Scripts/CSharpScripts/UnitTests/Camera/TestInstructorCameraHard.cs:59-68 | the containers and slots the test checks before its wait |
| InstructorTests.HardInsertTransition | UnityProject/Backup/Assets/Scripts/CSharpScripts/UnitTests/Camera/TestInstructorCameraHard.cs:80-89 | the containers and slots the test checks before its wait |
| InstructorTests.HardAddLowerPriorityTransitionWhileGoingToHigherAndRelease | UnityProject/Backup/Assets/Scripts/CSharpScripts/UnitTests/Camera/TestInstructorCameraHard.cs:102-110 | the containers and slots the test checks before its wait |
| InstructorTests.InsaneLowPriorityTransitionWhileReleasingAPriority | UnityProject/Backup/Assets/Scripts/CSharpScripts/UnitTests/Camera/TestInstructorCameraInsane.cs:20-28 | the containers and slots the test checks before its wait |
| InstructorTests.InsaneReleasePriorityAfterDoubleLowPriorityTransitions | UnityProject/Backup/Assets/Scripts/CSharpScripts/UnitTests/Camera/TestInstructorCameraInsane.cs:40-48 | the containers and slots the test checks before its wait |
| InstructorTests.InsaneOverridePriorityReleaseWithSamePriorityTransition | UnityProject/Backup/Assets/Scripts/CSharpScripts/UnitTests/Camera/TestInstructorCameraInsane.cs:60-68 | the containers and slots the test checks before its wait |
| InstructorTests.FullListInsertion | UnityProject/Backup/Assets/Scripts/CSharpScripts/Instructors/Containers/InstructorProcessor.cs:281-290 | a zone-0 transition on top of four pending zone-1 ones is refused by the corrected insertion, and the list stays |
| InstructorTests.FullListInsertionAsWritten | UnityProject/Backup/Assets/Scripts/CSharpScripts/Instructors/Containers/InstructorProcessor.cs:281-290 | the same insertion as written counts 5 records and loses P1T2C11 from the slots |
| Score.Digits | UnityProject/Backup/Assets/Scripts/CSharpScripts/Game/ScoreKeeper.cs:182-210 | the decimal text of a number: at least one digit, all digits, a single digit exactly below 10 |
| Score.DigitsValue | UnityProject/Backup/Assets/Scripts/CSharpScripts/Game/ScoreKeeper.cs:182-210 | the digits read back give the number |
| Score.Seconds | UnityProject/Backup/Assets/Scripts/CSharpScripts/Game/ScoreKeeper.cs:182-210 | the seconds are always two digits, the tens and the units of the number |
| Score.TimeRemaining | UnityProject/Backup/Assets/Scripts/CSharpScripts/Game/ScoreKeeper.cs:182-210 | a negative time shows as ""; under a minute, the two-digit seconds; from one minute on, the minutes, a dot and the two-digit seconds |
| Score.SecondsValue | UnityProject/Backup/Assets/Scripts/CSharpScripts/Game/ScoreKeeper.cs:182-210 | the two seconds digits read back as the seconds |
| Score.TimeRemainingReads | UnityProject/Backup/Assets/Scripts/CSharpScripts/Game/ScoreKeeper.cs:182-210 | every time of at least zero reads back from its text, and every negative one shows as "": two different non-negative times never show alike |
| Score.ReadMinutes | UnityProject/Backup/Assets/Scripts/CSharpScripts/Game/ScoreKeeper.cs:182-210 | minutes, a dot and two digits read back as minutes × 60 + seconds |
| Score.Countdown | UnityProject/Backup/Assets/Scripts/CSharpScripts/Game/ScoreKeeper.cs:77-88 | one text per second of the countdown |
| Score.CountdownAt | UnityProject/Backup/Assets/Scripts/CSharpScripts/Game/ScoreKeeper.cs:69-88 | the i-th text of a countdown shows the starting time minus i |
| Score.ScoreKeeper.constructor | UnityProject/Backup/Assets/Scripts/CSharpScripts/Game/ScoreKeeper.cs:33-40 | nothing carried or deposited, and the whole game length left |
| Score.ScoreKeeper.Pickup | UnityProject/Backup/Assets/Scripts/CSharpScripts/Game/ScoreKeeper.cs:133-165 | one more orb is carried exactly when the carry limit is not reached; nothing else changes; the depository is shown exactly when the limit is then reached |
| Score.ScoreKeeper.Deposit | UnityProject/Backup/Assets/Scripts/CSharpScripts/Game/ScoreKeeper.cs:170-177 | everything carried is deposited; the total collected is unchanged, and a won game stays won |
| Score.ScoreKeeper.CheckTime | UnityProject/Backup/Assets/Scripts/CSharpScripts/Game/ScoreKeeper.cs:77-88 | the timer text is shown once a second until no time is left and once more at the end; the time ends at zero (or where it was, if it was not positive); the outcome is the win test of `EndGame` |

## Left out

- I/O and rendering: `DrawPath`, the `cout` output and `main` of `Cpp/MazeFun.cpp`, and `DrawCircle`, `DebugDraw`, `CreateWalls` and `CreateDoors` in `MazeData.cs`. They only draw or print, and the model keeps the cell and path values they read.
- Randomness: `UnityEngine.Random`, `rand()` and the `std::mt19937`/`std::shuffle` pair are replaced by the tapes of `RandomTape.Random`. Which numbers they would produce is not modelled.
- Floating point: the chance test `Random.Range(0f, 1f) < chance`, the curve of the completion values and the game clock are modelled as `real`, without rounding.
- Integer width: `int` is unbounded. There is no 32-bit overflow in the grid sizes and counts this code uses.
- `ForEachDoor`, `ForEachCell`, `Width`, `Height` and `GetCell` are plain accessors. The model reads the grid directly.
- The `Tuple` helper class of `MazeData.cs`: the model uses Dafny tuples.
- `MoveCost` in `Cpp/MazeFun.cpp` is declared but never called.
- MazeFun.BaseMaze.FindBestPath: where the source's `assert`s fail, the model returns `None` instead of making that a precondition. The cases are an endpoint outside the maze and a target that cannot be reached.
- MazeFun.BaseMaze.FindBestPath: the `std::priority_queue` is modelled as a frontier sorted by cost. Its order among equal costs and the duplicate entries it keeps are not modelled. The contract states the path found, not which of several equal paths is chosen.
- MazeFunMonster.Monster.Decide: promises a least-visited possibility, not which one. `std::sort` is not stable, so the source does not fix the order among equal counts.
- MazeData.Maze.Generate: the C# version writes into a buffer shared by all calls. The model states the result for the cells the walk reaches from the start.
- MazeData.Maze.Braid and MazeFun.BaseMaze.Braid: require a grid of at least 2×2. On a single row or column, the do-while that picks a neighbour would never end.
- MazeFun.BaseMaze.constructor: requires a width above zero, because `Maze::Height` reads `mCells[0]`. It also requires a height above zero, which the source does not need. `Maze(w, 0)` would be harmless there, but the model's class invariant keeps a cell for the monster to start on. The only maze the program builds, `StaticMaze<30, 30>`, meets both bounds. The C# constructor with a width or height of 0 builds an empty grid and is modelled as such.
- The camera's per-frame work is left out: `InitContainer`, the blending of position, orientation and banking, `IncrementTransitionCompletions` and `Tick`. The model takes each record's completion as given.
- Transitions are identified by name. A Unity object's identity is not modelled.
- The camera tests on matrices and positions, and the slow and fast variants that check the state after a wait. They depend on the per-frame completion update.
- ScoreKeeper's audio, GUI objects, random voice lines, touch-input loop and level reload. `UpdateCarryingGui` and `UpdateDepositedGui` only set texts.
- Score.ScoreKeeper.CheckTime: the time left is a `float` in the game. The model keeps it as a whole number, which is all it ever holds, and models the waits as one step per second. In the game, `Pickup` and `Deposit` run between the seconds of the countdown coroutine. The model runs them before `CheckTime`. The outcome is the same, because the timer texts do not read the counters and the win test reads them only at the end.

## Findings

| source | as written | input that shows it | evidently intended | confidence | as-written member | corrected member |
|---|---|---|---|---|---|---|
| UnityProject/Assets/Scripts/CSharpScripts/Game/MazeData.cs:852-864 | before the monster's first move, `HomeIn` with `considerPrev` looks up the delta of `Opposite(Count)`, which is `Count`, and the array index throws | the first `Wander` call with more than one possibility and a chance draw below `chance` | with no previous move there is no cell to penalise | not executed | MazeMonster.Monster.LastPosAsWritten, MazeMonster.FirstHomeInLookupThrows | MazeMonster.Monster.LastPos, MazeMonster.Monster.HomeIn |
| UnityProject/Assets/Scripts/CSharpScripts/Game/MazeData.cs:834-841 | with no possibility, `Wander` calls `CanTravelTo(mLastMove)`; before the first move that is `Count`, and the delta lookup throws | a monster in a cell with no open side (any cell of a 1×1 maze) before its first move | a monster that cannot move stays where it is | not executed | MazeMonster.Monster.CanTravelToAsWritten, MazeMonster.FallbackLookupThrows | MazeMonster.Monster.CanTravelTo, MazeMonster.Monster.Fallback |
| UnityProject/Backup/Assets/Scripts/CSharpScripts/Instructors/Containers/InstructorProcessor.cs:281-290 | the assertion tests the insertion index against `m_TransitionMaxCount - 1`, not the count against the capacity, and only logs; with four records, the shift drops the last one and the count becomes 5 | four zone-1 transitions pending, then `AddTransition` of a zone-0 transition | an insertion into a full list is refused and the list is kept | not executed | Instructors.InsertAsWritten, Instructors.InsertAsWrittenOverflows, InstructorTests.FullListInsertionAsWritten | Instructors.InstructorProcessor.InsertTransition, Instructors.InsertInto |
