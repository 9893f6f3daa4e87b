/**
 * The `Monster` of MazeFun.cpp and the text rendering of `OutputToConsole`. The monster
 * starts in cell (0, 0), draws its order from a fresh `std::shuffle` on every wander, breaks
 * ties between equally visited neighbours as `std::sort` happens to, and does not stop at its
 * target. Where the source would trip one of its assertions or index past the end of an
 * array, the model reports `ok == false` and leaves the monster as it was.
 */
module MazeFunMonster {
  import opened MazeCells
  import opened MazeGrid
  import opened RandomTape
  import opened MazeFun
  import opened MazeMonster

  class Monster {
    const maze: BaseMaze
    var x: int
    var y: int
    /** `mLastMove`: `Count` until the first move. */
    var lastMove: Direction
    /** `mVisitedCount`: how often the monster has left each cell. */
    const visited: array2<int>

    /** The maze is well formed, the counts cover it, and the monster stands inside it. */
    ghost predicate Valid()
      reads this, maze, maze.cells
    {
      maze.Valid() && Placed()
    }

    /** The counts cover the maze and the monster stands inside it. */
    predicate Placed()
      reads this, maze
    {
      visited.Length0 == maze.Width() && visited.Length1 == maze.Height() && maze.IsInMaze(x, y)
    }

    /** The constructor: at (0, 0), no move yet, no cell visited. */
    constructor (maze: BaseMaze)
      requires maze.Valid()
      ensures Valid() && this.maze == maze && x == 0 && y == 0 && lastMove == Count
      ensures fresh(visited)
      ensures forall i, j :: 0 <= i < visited.Length0 && 0 <= j < visited.Length1 ==> visited[i, j] == 0
    {
      this.maze := maze;
      x := 0;
      y := 0;
      lastMove := Count;
      visited := new int[maze.Width(), maze.Height()]((i, j) => 0);
    }

    /** The monster took one step in direction d and counted the cell it left. */
    twostate predicate MovedTo(d: Dir)
      reads this, visited
    {
      x == old(x) + XDelta[d] && y == old(y) + YDelta[d] && lastMove == d &&
      forall i, j :: 0 <= i < visited.Length0 && 0 <= j < visited.Length1 ==>
        visited[i, j] == old(visited[i, j]) + (if i == old(x) && j == old(y) then 1 else 0)
    }

    /** Nothing about the monster changed. */
    twostate predicate Stayed()
      reads this, visited
    {
      x == old(x) && y == old(y) && lastMove == old(lastMove) &&
      forall i, j :: 0 <= i < visited.Length0 && 0 <= j < visited.Length1 ==> visited[i, j] == old(visited[i, j])
    }

    /** `Move`: through an open side, count the cell left, step, and remember the direction.
        Against a blocked side the source asserts; `ok` is then false and nothing changes. */
    method Move(d: Dir) returns (ok: bool)
      requires Valid()
      modifies this, visited
      ensures Valid()
      ensures ok <==> old(!Blocked(WallAt(maze.cells, (x, y), d)))
      ensures ok ==> MovedTo(d)
      ensures !ok ==> Stayed()
    {
      if maze.cells[x, y].TestDir(d, IsBlocked) {
        return false;
      }
      UnblockedStaysInside(maze.cells, (x, y), d);
      visited[x, y] := visited[x, y] + 1;
      x := x + XDelta[d];
      y := y + YDelta[d];
      lastMove := d;
      ok := true;
    }

    /** `IsValidPos`: inside the visit counts. */
    predicate IsValidPos(px: int, py: int)
    {
      0 <= px < visited.Length0 && 0 <= py < visited.Length1
    }

    /** `CanTravelTo`: the neighbour in direction d is inside and the side is open. */
    predicate CanTravelTo(d: Dir)
      reads this, maze, maze.cells
      requires Placed()
      ensures CanTravelTo(d) ==> maze.IsInMaze(x + XDelta[d], y + YDelta[d])
      ensures CanTravelTo(d) ==> !Blocked(WallAt(maze.cells, (x, y), d))
    {
      IsValidPos(x + XDelta[d], y + YDelta[d]) && !maze.cells[x, y].TestDir(d, IsBlocked)
    }

    /** In a well-formed maze the bounds test is redundant: the monster can travel exactly
        through the open sides of its cell. */
    lemma TravelMeansOpen(d: Dir)
      requires Valid()
      ensures CanTravelTo(d) <==> !Blocked(WallAt(maze.cells, (x, y), d))
    {
      if !Blocked(WallAt(maze.cells, (x, y), d)) {
        UnblockedStaysInside(maze.cells, (x, y), d);
      }
    }

    /** `HomeIn`: the best path from here to the target, whose first step is taken; the rest
        is returned. The source trips an assertion when the target is outside the maze or
        unreachable, and erases past the end of an empty path when the monster already
        stands on the target: `ok` is false exactly then, and the monster stays. Otherwise it
        took the first step of a shortest walk to the target, whose remainder is returned. */
    method HomeIn(tx: int, ty: int) returns (ok: bool, rest: seq<Dir>)
      requires Valid()
      modifies this, visited
      ensures Valid()
      ensures ok <==> maze.IsInMaze(tx, ty) && old((x, y)) != (tx, ty) && Reachable(maze.cells, old((x, y)), (tx, ty))
      ensures !ok ==> Stayed()
      ensures ok ==> lastMove != Count && MovedTo(lastMove) && IsWalk(maze.cells, (x, y), rest, (tx, ty))
      ensures ok ==> forall w :: IsWalk(maze.cells, old((x, y)), w, (tx, ty)) ==> 1 + |rest| <= |w|
    {
      var best := maze.FindBestPath((x, y), (tx, ty));
      if best.None? || best.value == [] {
        return false, [];
      }
      var path := best.value;
      var moved := Move(path[0]);
      return true, path[1..];
    }

    /** The `possibilities` of `Wander` for the directions in `order`: each one that is not
        excluded and can be travelled to, with the visit count of the cell it leads to. */
    ghost function Candidates(order: seq<Dir>, exclude: Direction): seq<Candidate>
      reads this, maze, maze.cells, visited
      requires Placed()
    {
      if order == [] then []
      else
        var d := order[|order| - 1];
        Candidates(order[..|order| - 1], exclude) +
          if d != exclude && CanTravelTo(d) then [Candidate(d, visited[x + XDelta[d], y + YDelta[d]])] else []
    }

    /** Gathering one more direction appends at most its candidate. */
    lemma CandidatesSnoc(order: seq<Dir>, d: Dir, exclude: Direction)
      requires Placed()
      ensures Candidates(order + [d], exclude) == Candidates(order, exclude) +
        if d != exclude && CanTravelTo(d) then [Candidate(d, visited[x + XDelta[d], y + YDelta[d]])] else []
    {
      assert (order + [d])[..|order|] == order;
    }

    /** A candidate is listed exactly when its direction is in the order, is not excluded and
        can be travelled to, and it carries the visit count of the cell it leads to. */
    lemma {:induction false} CandidatesMembers(order: seq<Dir>, exclude: Direction, c: Candidate)
      requires Placed()
      ensures c in Candidates(order, exclude) <==>
        c.dir in order && c.dir != exclude && CanTravelTo(c.dir) &&
        c.visits == visited[x + XDelta[c.dir], y + YDelta[c.dir]]
    {
      if order != [] {
        var init := order[..|order| - 1];
        CandidatesMembers(init, exclude, c);
        assert order == init + [order[|order| - 1]];
      }
    }

    /** The lambda `ForEachDirRandomOrder` runs in `Wander`: each direction of the order that
        is not the way back and can be travelled to, with its count. */
    method Gather(order: seq<Dir>, exclude: Direction) returns (poss: seq<Candidate>)
      requires Placed()
      ensures poss == Candidates(order, exclude)
    {
      poss := [];
      for k := 0 to |order|
        invariant poss == Candidates(order[..k], exclude)
      {
        var curDir := order[k];
        assert order[..k + 1] == order[..k] + [curDir];
        CandidatesSnoc(order[..k], curDir, exclude);
        if curDir != exclude && CanTravelTo(curDir) {
          poss := poss + [Candidate(curDir, visited[x + XDelta[curDir], y + YDelta[curDir]])];
        }
      }
      assert order[..|order|] == order;
    }

    /** Whether a draw of `rand()` sends the monster homing in: `rand() % 100` below a hundred
        times the probability. */
    static predicate HomesIn(r: nat, chance: real)
    {
      ((r % 100) as real) < chance * 100.0
    }

    /** The deciding half of `Wander`, once the possibilities are gathered. With none, the
        monster goes on in its last direction if it can and otherwise turns back unchecked:
        before any move this indexes past `xDelta`, and a blocked way back trips `Move`'s
        assertion. With more than one, a `rand()` may send it homing in. Otherwise it moves
        to a possibility with the fewest visits (`std::sort` is not stable, so which of
        several equals is not fixed). `ok` is false where the source fails. */
    method Decide(possibilities: seq<Candidate>, tx: int, ty: int, chance: real, rng: Random)
      returns (ok: bool, ghost pick: nat)
      requires Valid()
      requires forall i :: 0 <= i < |possibilities| ==> CanTravelTo(possibilities[i].dir)
      modifies this, visited, rng
      ensures Valid()
      ensures rng.orders == old(rng.orders) && rng.units == old(rng.units)
      ensures rng.ints == Skip(old(rng.ints), if |possibilities| > 1 then 1 else 0)
      ensures possibilities == [] && old(lastMove) == Count ==> !ok && Stayed()
      ensures possibilities == [] && old(lastMove) != Count && old(CanTravelTo(lastMove as Dir)) ==>
        ok && MovedTo(old(lastMove) as Dir)
      ensures possibilities == [] && old(lastMove) != Count && !old(CanTravelTo(lastMove as Dir)) ==>
        (ok <==> old(!Blocked(WallAt(maze.cells, (x, y), Opposite(lastMove) as Dir)))) &&
        (ok ==> MovedTo(Opposite(old(lastMove)) as Dir)) && (!ok ==> Stayed())
      ensures |possibilities| > 1 && HomesIn(NextInt(old(rng.ints)), chance) ==>
        (ok <==> maze.IsInMaze(tx, ty) && old((x, y)) != (tx, ty) && Reachable(maze.cells, old((x, y)), (tx, ty))) &&
        (ok ==> lastMove != Count && MovedTo(lastMove)) && (!ok ==> Stayed())
      ensures possibilities != [] && !(|possibilities| > 1 && HomesIn(NextInt(old(rng.ints)), chance)) ==>
        ok && pick < |possibilities| && MovedTo(possibilities[pick].dir) &&
        forall j :: 0 <= j < |possibilities| ==> possibilities[pick].visits <= possibilities[j].visits
    {
      pick := 0;
      if possibilities == [] {
        if lastMove == Count {
          return false, pick;
        }
        if CanTravelTo(lastMove as Dir) {
          TravelMeansOpen(lastMove as Dir);
          ok := Move(lastMove as Dir);
        } else {
          ok := Move(Opposite(lastMove) as Dir);
        }
        return;
      }
      if |possibilities| > 1 {
        var r := rng.Rand();
        if HomesIn(r, chance) {
          var rest;
          ok, rest := HomeIn(tx, ty);
          return;
        }
      }
      var first := FirstLeast(possibilities);
      pick := first;
      TravelMeansOpen(possibilities[first].dir);
      ok := Move(possibilities[first].dir);
    }

    /** `Wander`: one `rand()` is drawn and ignored, one order of the directions is drawn, the
        possibilities are gathered in it leaving out the way back, and `Decide` acts on them.
        There is no early return at the target. */
    method Wander(tx: int, ty: int, chance: real, rng: Random)
      returns (ok: bool, ghost poss: seq<Candidate>, ghost pick: nat)
      requires Valid()
      modifies this, visited, rng
      ensures Valid()
      ensures poss == old(Candidates(NextOrder(rng.orders), Opposite(lastMove)))
      ensures rng.orders == Rest(old(rng.orders)) && rng.units == old(rng.units)
      ensures rng.ints == Skip(old(rng.ints), if |poss| > 1 then 2 else 1)
      ensures poss == [] && old(lastMove) == Count ==> !ok && Stayed()
      ensures poss == [] && old(lastMove) != Count && old(CanTravelTo(lastMove as Dir)) ==>
        ok && MovedTo(old(lastMove) as Dir)
      ensures poss == [] && old(lastMove) != Count && !old(CanTravelTo(lastMove as Dir)) ==>
        (ok <==> old(!Blocked(WallAt(maze.cells, (x, y), Opposite(lastMove) as Dir)))) &&
        (ok ==> MovedTo(Opposite(old(lastMove)) as Dir)) && (!ok ==> Stayed())
      ensures |poss| > 1 && HomesIn(NextInt(Rest(old(rng.ints))), chance) ==>
        (ok <==> maze.IsInMaze(tx, ty) && old((x, y)) != (tx, ty) && Reachable(maze.cells, old((x, y)), (tx, ty))) &&
        (ok ==> lastMove != Count && MovedTo(lastMove)) && (!ok ==> Stayed())
      ensures poss != [] && !(|poss| > 1 && HomesIn(NextInt(Rest(old(rng.ints))), chance)) ==>
        ok && pick < |poss| && MovedTo(poss[pick].dir) &&
        forall j :: 0 <= j < |poss| ==> poss[pick].visits <= poss[j].visits
    {
      ghost var expected := Candidates(NextOrder(rng.orders), Opposite(lastMove));
      var randOffset := rng.Rand();
      var order := rng.Shuffled();
      assert Candidates(order, Opposite(lastMove)) == expected;
      var possibilities := Gather(order, Opposite(lastMove));
      poss := possibilities;
      forall i | 0 <= i < |possibilities| ensures CanTravelTo(possibilities[i].dir) {
        CandidatesMembers(order, Opposite(lastMove), possibilities[i]);
      }
      SkipMore(old(rng.ints), 1, 1);
      assert poss == old(Candidates(NextOrder(rng.orders), Opposite(lastMove)));
      assert lastMove == old(lastMove) && x == old(x) && y == old(y);
      assert lastMove != Count ==> (CanTravelTo(lastMove as Dir) <==> old(CanTravelTo(lastMove as Dir)));
      assert Stayed();
      ok, pick := Decide(possibilities, tx, ty, chance, rng);
    }
  }

  // ---------------------------------------------------------------------------------------
  // OutputToConsole
  // ---------------------------------------------------------------------------------------

  /** The first i columns of the top border: a space and the north glyph of each. */
  function TopLine(a: Grid, i: nat): (s: string)
    reads a
    requires a.Length1 > 0 && i <= a.Length0
    ensures |s| == 2 * i
  {
    if i == 0 then [] else TopLine(a, i - 1) + " " + a[i - 1, 0].GetChar(North)
  }

  /** The first i cells of row j: the west glyph of each, then `*` where the monster stands
      and the south glyph elsewhere. */
  function RowCells(a: Grid, j: nat, i: nat, monster: Pos): (s: string)
    reads a
    requires j < a.Length1 && i <= a.Length0
    ensures |s| == 2 * i
  {
    if i == 0 then []
    else RowCells(a, j, i - 1, monster) + a[i - 1, j].GetChar(West) + (if monster == (i - 1, j) then "*" else a[i - 1, j].GetChar(South))
  }

  /** Row j of the drawing: its cells, the east glyph of its last cell, and a line break. */
  function RowLine(a: Grid, j: nat, monster: Pos): (s: string)
    reads a
    requires j < a.Length1 && a.Length0 > 0
    ensures |s| == 2 * a.Length0 + 2
  {
    RowCells(a, j, a.Length0, monster) + a[a.Length0 - 1, j].GetChar(East) + "\n"
  }

  /** The top border followed by the first j rows. */
  function Drawing(a: Grid, j: nat, monster: Pos): (s: string)
    reads a
    requires a.Length0 > 0 && a.Length1 > 0 && j <= a.Length1
    ensures |s| == RowStart(a.Length0, j)
  {
    if j == 0 then TopLine(a, a.Length0) + "\n" else Drawing(a, j - 1, monster) + RowLine(a, j - 1, monster)
  }

  /** `OutputToConsole`, without the final `std::cout`: the drawing of the maze with the
      monster's cell marked. */
  method OutputToConsole(maze: BaseMaze, monster: Monster) returns (s: string)
    requires maze.Valid()
    ensures s == Drawing(maze.cells, maze.Height(), (monster.x, monster.y))
  {
    var a := maze.cells;
    var m := (monster.x, monster.y);
    s := DrawTop(a);
    s := s + "\n";
    for j := 0 to maze.Height()
      invariant s == Drawing(a, j, m)
    {
      var row := DrawRow(a, j, m);
      s := s + row + a[maze.Width() - 1, j].GetChar(East) + "\n";
    }
  }

  /** The first loop of `OutputToConsole`: the top border. */
  method DrawTop(a: Grid) returns (s: string)
    requires a.Length1 > 0
    ensures s == TopLine(a, a.Length0)
  {
    s := [];
    for i := 0 to a.Length0
      invariant s == TopLine(a, i)
    {
      s := s + " " + a[i, 0].GetChar(North);
    }
  }

  /** The inner loop of `OutputToConsole`: the cells of row j. */
  method DrawRow(a: Grid, j: nat, m: Pos) returns (row: string)
    requires j < a.Length1
    ensures row == RowCells(a, j, a.Length0, m)
  {
    row := [];
    for i := 0 to a.Length0
      invariant row == RowCells(a, j, i, m)
    {
      var curCell := a[i, j];
      row := row + curCell.GetChar(West);
      if m == (i, j) {
        row := row + "*";
      } else {
        row := row + curCell.GetChar(South);
      }
    }
  }

  /** Where line 1 + j of a drawing w cells wide starts: after the top border and j rows of
      2w + 2 characters each. */
  function RowStart(w: nat, j: nat): nat
  {
    if j == 0 then 2 * w + 1 else RowStart(w, j - 1) + 2 * w + 2
  }

  /** Row j ends before row k starts, for j < k. */
  lemma {:induction false} RowStartGrows(w: nat, j: nat, k: nat)
    requires j < k
    ensures RowStart(w, j) + 2 * w + 2 <= RowStart(w, k)
    decreases k - j
  {
    if j + 1 < k {
      RowStartGrows(w, j, k - 1);
    }
  }

  /** Character 2i + 1 of the top border is the north glyph of cell (i, 0), after a space. */
  lemma {:induction false} TopLineAt(a: Grid, n: nat, i: nat)
    requires a.Length1 > 0 && i < n <= a.Length0
    ensures TopLine(a, n)[2 * i] == ' '
    ensures [TopLine(a, n)[2 * i + 1]] == a[i, 0].GetChar(North)
  {
    if i < n - 1 {
      TopLineAt(a, n - 1, i);
    }
  }

  /** Characters 2i and 2i + 1 of row j's cells show the west side of cell (i, j) and then
      the monster or its south side. */
  lemma {:induction false} RowCellsAt(a: Grid, j: nat, n: nat, monster: Pos, i: nat)
    requires j < a.Length1 && i < n <= a.Length0
    ensures [RowCells(a, j, n, monster)[2 * i]] == a[i, j].GetChar(West)
    ensures [RowCells(a, j, n, monster)[2 * i + 1]] == if monster == (i, j) then "*" else a[i, j].GetChar(South)
  {
    if i < n - 1 {
      RowCellsAt(a, j, n - 1, monster, i);
    }
  }

  /** The drawing up to row k keeps what the drawing up to row j holds, for j <= k. */
  lemma {:induction false} DrawingPrefix(a: Grid, j: nat, k: nat, monster: Pos)
    requires a.Length0 > 0 && a.Length1 > 0 && j <= k <= a.Length1
    ensures Drawing(a, j, monster) <= Drawing(a, k, monster)
    decreases k - j
  {
    if j < k {
      DrawingPrefix(a, j, k - 1, monster);
    }
  }

  /** The top border of the drawing: a space and the north glyph of each column, then a
      line break. */
  lemma DrawingTop(a: Grid, monster: Pos, i: nat)
    requires a.Length0 > 0 && a.Length1 > 0 && i < a.Length0
    ensures |Drawing(a, a.Length1, monster)| == RowStart(a.Length0, a.Length1)
    ensures Drawing(a, a.Length1, monster)[2 * i] == ' '
    ensures Drawing(a, a.Length1, monster)[2 * i + 1] == a[i, 0].GetChar(North)[0]
    ensures Drawing(a, a.Length1, monster)[2 * a.Length0] == '\n'
  {
    DrawingPrefix(a, 0, a.Length1, monster);
    TopLineAt(a, a.Length0, i);
  }

  /** Line 1 + j of the drawing, per cell: the west glyph of cell (i, j), then `*` at the
      monster and the cell's south glyph elsewhere. */
  lemma DrawingCell(a: Grid, monster: Pos, i: nat, j: nat)
    requires a.Length0 > 0 && a.Length1 > 0 && i < a.Length0 && j < a.Length1
    ensures RowStart(a.Length0, j) + 2 * a.Length0 + 2 <= |Drawing(a, a.Length1, monster)|
    ensures Drawing(a, a.Length1, monster)[RowStart(a.Length0, j) + 2 * i] == a[i, j].GetChar(West)[0]
    ensures Drawing(a, a.Length1, monster)[RowStart(a.Length0, j) + 2 * i + 1] ==
      if monster == (i, j) then '*' else a[i, j].GetChar(South)[0]
  {
    var row, cells := RowLine(a, j, monster), RowCells(a, j, a.Length0, monster);
    RowInDrawing(a, monster, j, 2 * i);
    RowInDrawing(a, monster, j, 2 * i + 1);
    RowCellsAt(a, j, a.Length0, monster, i);
    assert row[2 * i] == cells[2 * i] && row[2 * i + 1] == cells[2 * i + 1];
  }

  /** Line 1 + j of the drawing ends with the east glyph of the row's last cell and a line
      break. */
  lemma DrawingRowEnd(a: Grid, monster: Pos, j: nat)
    requires a.Length0 > 0 && a.Length1 > 0 && j < a.Length1
    ensures RowStart(a.Length0, j) + 2 * a.Length0 + 2 <= |Drawing(a, a.Length1, monster)|
    ensures Drawing(a, a.Length1, monster)[RowStart(a.Length0, j) + 2 * a.Length0] == a[a.Length0 - 1, j].GetChar(East)[0]
    ensures Drawing(a, a.Length1, monster)[RowStart(a.Length0, j) + 2 * a.Length0 + 1] == '\n'
  {
    RowInDrawing(a, monster, j, 2 * a.Length0);
    RowInDrawing(a, monster, j, 2 * a.Length0 + 1);
    RowLineEnd(a, j, monster);
  }

  /** A row ends with the east glyph of its last cell and a line break. */
  lemma RowLineEnd(a: Grid, j: nat, monster: Pos)
    requires a.Length0 > 0 && j < a.Length1
    ensures RowLine(a, j, monster)[2 * a.Length0] == a[a.Length0 - 1, j].GetChar(East)[0]
    ensures RowLine(a, j, monster)[2 * a.Length0 + 1] == '\n'
  {
    var east := a[a.Length0 - 1, j].GetChar(East);
    assert RowLine(a, j, monster) == RowCells(a, j, a.Length0, monster) + east + "\n";
  }

  /** Character k of row j sits at RowStart(w, j) + k in the whole drawing. */
  lemma RowInDrawing(a: Grid, monster: Pos, j: nat, k: nat)
    requires a.Length0 > 0 && a.Length1 > 0 && j < a.Length1 && k < 2 * a.Length0 + 2
    ensures RowStart(a.Length0, j) + 2 * a.Length0 + 2 <= |Drawing(a, a.Length1, monster)|
    ensures Drawing(a, a.Length1, monster)[RowStart(a.Length0, j) + k] == RowLine(a, j, monster)[k]
  {
    DrawingPrefix(a, j + 1, a.Length1, monster);
    assert Drawing(a, j + 1, monster) == Drawing(a, j, monster) + RowLine(a, j, monster);
  }
}
