/**
 * The C++ port of the maze engine (MazeFun.cpp): `BaseMaze` with its two storage variants
 * `Maze` and `StaticMaze`, over the same cells as the C# engine. Unlike the C# engine the
 * recursion draws a fresh shuffled order of the four directions on every call, so `Generate`
 * carves a spanning tree; cells are visited column by column; doors are redrawn from
 * `rand() % 100`; and the search penalises no position.
 */
module MazeFun {
  import opened MazeCells
  import opened MazeGrid
  import opened RandomTape
  import opened MazeUtil
  import opened PathSearch
  import opened DoorDraws

  // ---------------------------------------------------------------------------------------
  // The recursion's closure argument
  // ---------------------------------------------------------------------------------------

  /** Every neighbour of p inside the grid belongs to v. */
  ghost predicate Surrounded(a: Grid, p: Pos, v: set<Pos>)
  {
    forall d: Dir :: InBounds(a, Step(p, d)) ==> Step(p, d) in v
  }

  /** Every cell of s has all its neighbours in v. */
  ghost predicate AllSurrounded(a: Grid, s: set<Pos>, v: set<Pos>)
  {
    forall p :: p in s ==> Surrounded(a, p, v)
  }

  /** A recursive call from child n, which visited `after - mid` besides n, joins the cells
      this call has visited so far: everything visited since `base` is surrounded. */
  lemma AbsorbChild(a: Grid, base: set<Pos>, before: set<Pos>, after: set<Pos>, n: Pos)
    requires AllSurrounded(a, before - base, before)
    requires before + {n} <= after
    requires AllSurrounded(a, after - (before + {n}) + {n}, after)
    ensures AllSurrounded(a, after - base, after)
  {
    forall p | p in after - base ensures Surrounded(a, p, after) {
      if p !in after - (before + {n}) + {n} {
        assert Surrounded(a, p, before);
      }
    }
  }

  /** Every direction of ds that leads into the grid from p leads into v. */
  ghost predicate HandledDirs(a: Grid, p: Pos, ds: seq<Dir>, v: set<Pos>)
  {
    forall i :: 0 <= i < |ds| && InBounds(a, Step(p, ds[i])) ==> Step(p, ds[i]) in v
  }

  /** One more direction handled, while v grows to v'. */
  lemma HandledOneMore(a: Grid, p: Pos, ds: seq<Dir>, k: int, v: set<Pos>, v': set<Pos>)
    requires 0 <= k < |ds| && HandledDirs(a, p, ds[..k], v) && v <= v'
    requires InBounds(a, Step(p, ds[k])) ==> Step(p, ds[k]) in v'
    ensures HandledDirs(a, p, ds[..k + 1], v')
  {
  }

  /** Once all four directions of an order are handled, p is surrounded. */
  lemma HandledAll(a: Grid, p: Pos, o: Order, v: set<Pos>)
    requires HandledDirs(a, p, o[..4], v)
    ensures Surrounded(a, p, v)
  {
    forall d: Dir | InBounds(a, Step(p, d)) ensures Step(p, d) in v {
      assert d in o;
      var i :| 0 <= i < 4 && o[i] == d;
    }
  }

  /** A cell that is not fully walled while carving is under way has been visited. */
  lemma OpenCellIsVisited(a: Grid, t: Tree, n: Pos)
    requires Carving(a, t) && InBounds(a, n) && !a[n.0, n.1].IsFullyWalled()
    ensures n in t.visited
  {
    assert n in AllCells(a);
  }

  /** A set of cells that holds (0, 0) and every neighbour of its members is the whole
      grid. */
  lemma SurroundedCoversGrid(a: Grid, v: set<Pos>)
    requires (0, 0) in v && v <= AllCells(a) && AllSurrounded(a, v - {(0, 0)} + {(0, 0)}, v)
    ensures v == AllCells(a)
  {
    assert v - {(0, 0)} + {(0, 0)} == v;
    forall p | p in AllCells(a) ensures p in v {
      Covered(a, v, p.0, p.1);
    }
  }

  lemma {:induction false} Covered(a: Grid, v: set<Pos>, i: int, j: int)
    requires (0, 0) in v && AllSurrounded(a, v, v)
    requires 0 <= i < a.Length0 && 0 <= j < a.Length1
    ensures (i, j) in v
    decreases i + j
  {
    if i > 0 {
      Covered(a, v, i - 1, j);
      assert Step((i - 1, j), East) == (i, j);
      assert Surrounded(a, (i - 1, j), v);
    } else if j > 0 {
      Covered(a, v, i, j - 1);
      assert Step((i, j - 1), South) == (i, j);
      assert Surrounded(a, (i, j - 1), v);
    }
  }

  /** A perfect maze: one passage fewer than cells, and every cell has a walk to (0, 0). */
  ghost predicate SpanningTree(a: Grid)
    reads a
  {
    |Passages(a)| + 1 == a.Length0 * a.Length1 &&
    forall p :: p in AllCells(a) ==> Reachable(a, p, (0, 0))
  }

  /** A carving tree from (0, 0) that visited every cell is a spanning tree. */
  lemma FullTreeSpans(a: Grid, t: Tree)
    requires Carving(a, t) && t.start == (0, 0) && t.visited == AllCells(a)
    ensures SpanningTree(a)
  {
    AllCellsCount(a);
    forall p | p in AllCells(a) ensures Reachable(a, p, (0, 0)) {
      GeneratedTree(a, t, p);
    }
  }

  // ---------------------------------------------------------------------------------------
  // Holes: what keeps `ValidateMazeState` passing
  // ---------------------------------------------------------------------------------------

  /** Every cell has an Empty side. */
  ghost predicate HolePerCell(a: Grid)
    reads a
  {
    forall i, j :: 0 <= i < a.Length0 && 0 <= j < a.Length1 ==> a[i, j].GetFirstHole() != Count
  }

  /** No Empty side has been closed. */
  twostate predicate HolesKept(a: Grid)
    reads a
  {
    forall i, j, e: Dir :: 0 <= i < a.Length0 && 0 <= j < a.Length1 && old(a[i, j].walls[e]) == Empty ==>
      a[i, j].walls[e] == Empty
  }

  /** A cell with an Empty side has a first hole. */
  lemma EmptySideIsHole(c: CellData, d: Dir)
    requires c.walls[d] == Empty
    ensures c.GetFirstHole() != Count
  {
  }

  /** A cell with a hole is not fully walled. */
  lemma HoleIsOpening(c: CellData)
    requires c.GetFirstHole() != Count
    ensures c.WallCount() < 4
  {
    var d: Dir := c.GetFirstHole();
    assert !TestWallState(c.walls[d], IsBlocked);
  }

  /** Every cell keeps a hole while no Empty side is closed. */
  twostate lemma HolesStay(a: Grid)
    requires old(HolePerCell(a)) && HolesKept(a)
    ensures HolePerCell(a)
  {
    forall i, j | 0 <= i < a.Length0 && 0 <= j < a.Length1 ensures a[i, j].GetFirstHole() != Count {
      var d: Dir := old(a[i, j].GetFirstHole());
      EmptySideIsHole(a[i, j], d);
    }
  }

  /** A symmetric maze in which every cell has a hole passes `ValidateMazeState`. */
  lemma HolesMakeValid(a: Grid)
    requires Symmetric(a) && HolePerCell(a)
    ensures MazeStateValid(a)
  {
    forall p: Pos, d: Dir | InBounds(a, p) && InBounds(a, Step(p, d)) ensures !a[p.0, p.1].IsFullyWalled() {
      HoleIsOpening(a[p.0, p.1]);
    }
    ValidStateMeaning(a);
  }

  /** A cell of a door-free grid that is not fully walled has a hole. */
  lemma OpenCellHasHole(a: Grid, p: Pos)
    requires InBounds(a, p) && NoDoors(a) && !a[p.0, p.1].IsFullyWalled()
    ensures a[p.0, p.1].GetFirstHole() != Count
  {
    var d: Dir :| !TestWallState(a[p.0, p.1].walls[d], IsBlocked);
    assert WallAt(a, p, d) == Wall || WallAt(a, p, d) == Empty;
    EmptySideIsHole(a[p.0, p.1], d);
  }

  /** A carving tree over all of a grid of two or more cells leaves every cell with a
      hole. */
  lemma FullTreeHasHoles(a: Grid, t: Tree)
    requires Carving(a, t) && t.visited == AllCells(a) && |AllCells(a)| > 1
    ensures HolePerCell(a)
  {
    forall i, j | 0 <= i < a.Length0 && 0 <= j < a.Length1 ensures a[i, j].GetFirstHole() != Count {
      assert (i, j) in t.visited;
      OpenCellHasHole(a, (i, j));
    }
  }

  /** Carving a blocked shared wall closes no Empty side. */
  twostate lemma CarveKeepsHoles(w: WallWrite)
    requires SharedWallWritten(w) && old(Blocked(WallAt(w.a, w.p, w.d))) && old(Symmetric(w.a))
    ensures HolesKept(w.a)
  {
    StepBack(w.p, w.d);
    assert old(SymmetricAt(w.a, w.p, w.d));
  }

  /** A redraw closes no Empty side. */
  twostate lemma RedrawnKeepsHoles(k: Redraw)
    requires GridRedrawn(k.a, k.chance)
    ensures HolesKept(k.a)
  {
    forall i, j, e: Dir | 0 <= i < k.a.Length0 && 0 <= j < k.a.Length1 && old(k.a[i, j].walls[e]) == Empty
      ensures k.a[i, j].walls[e] == Empty
    {
      assert Redrawn(k.chance, old(k.a[i, j].walls[e]), k.a[i, j].walls[e]);
    }
  }

  // ---------------------------------------------------------------------------------------
  // Column-major progress
  // ---------------------------------------------------------------------------------------

  /** Every cell before row y of column x, in column order, has at most two blocked sides or
      one fewer than it started with. */
  twostate predicate BraidedBeforeCol(a: Grid, x: int, y: int)
    reads a
  {
    forall i, j :: 0 <= i < a.Length0 && 0 <= j < a.Length1 && (i < x || (i == x && j < y)) ==>
      a[i, j].WallCount() <= Max(2, old(a[i, j].WallCount()) - 1)
  }

  /** Every door of a cell before row y of column x, in column order, is as the chance
      allows. */
  ghost predicate DoorsSettledCol(a: Grid, chance: real, x: int, y: int)
    reads a
  {
    forall i, j, e: Dir ::
      0 <= i < a.Length0 && 0 <= j < a.Length1 && (i < x || (i == x && j < y)) && IsDoorState(a[i, j].walls[e]) ==>
        Settles(chance, a[i, j].walls[e])
  }


  /** How `ShuffleDoors` sets a door for a draw r of `rand()`: closed when `r % 100`, as a
      float, is below a hundred times the chance. */
  function DrawnRand(chance: real, r: nat): (s: WallState)
    ensures IsDoorState(s) && Settles(chance, s)
    ensures s == ClosedDoor <==> ((r % 100) as real) < chance * 100.0
  {
    if ((r % 100) as real) < chance * 100.0 then ClosedDoor else WallState.OpenDoor
  }

  /** The door state that the value at position i of the tape ints sets. */
  function IntDraw(chance: real, ints: seq<nat>): nat -> WallState
  {
    (i: nat) => DrawnRand(chance, NextInt(Skip(ints, i)))
  }

  /** The visit to a cell within `ShuffleDoors` whose draws come from the tape ints. */
  datatype IntsCellDraw = IntsCellDraw(k: CellDraw, ints: seq<nat>, here: seq<nat>)

  /** A cell visit whose door sides take, in direction order, the values of the tape that
      follow the draws of the cells visited before it sets its doors by their own draws. */
  twostate lemma IntsCellDrawn(u: IntsCellDraw)
    requires CellVisit(u.k) && u.k.draw == IntDraw(u.k.chance, u.ints) && u.here == Skip(u.ints, u.k.v.DrawsBefore(u.k.c))
    requires forall e: Dir :: IsDoorState(old(u.k.a[u.k.c.0, u.k.c.1].walls[e])) ==>
      u.k.a[u.k.c.0, u.k.c.1].walls[e] == DrawnRand(u.k.chance, NextInt(Skip(u.here, DoorsBefore(old(u.k.a[u.k.c.0, u.k.c.1]), e))))
    ensures DrawnBefore(u.k.a, u.k.v, u.k.draw, u.k.v.Next(u.k.c))
  {
    var k, c := u.k, u.k.c;
    forall e: Dir | IsDoorState(old(k.a[c.0, c.1].walls[e]))
      ensures k.a[c.0, c.1].walls[e] == k.draw(k.v.DrawIndex(c, e))
    {
      DoorsBeforeSame(old(k.a[c.0, c.1]), k.v.orig[c], e);
      SkipMore(u.ints, k.v.DrawsBefore(c), DoorsBefore(old(k.a[c.0, c.1]), e));
    }
    CellDrawn(k);
  }

  /** A whole `ShuffleDoors` with the draws taken from the tape ints. */
  datatype IntsShuffle = IntsShuffle(r: Redraw, ints: seq<nat>)

  /** After the column loop of `ShuffleDoors` has visited every column, starting from the
      snapshot of the old grid, every door is the draw of the later visit of its pair and is
      as the chance allows, the grid is a redraw of the old one and no hole was closed. */
  twostate lemma IntsShuffled(s: IntsShuffle)
    requires s.r.orig == old(Snapshot(s.r.a)) && WellFormed(s.r.a) && GridRedrawnFrom(s.r.orig, s.r.a, s.r.chance)
    requires DrawnBefore(s.r.a, Visit(s.r.orig, false, s.r.a.Length1), IntDraw(s.r.chance, s.ints), (s.r.a.Length0, 0))
    ensures GridRedrawn(s.r.a, s.r.chance) && HolesKept(s.r.a)
    ensures old(HolePerCell(s.r.a)) ==> HolePerCell(s.r.a)
    ensures DoorsSettledCol(s.r.a, s.r.chance, s.r.a.Length0, 0)
    ensures forall i, j, e: Dir :: 0 <= i < s.r.a.Length0 && 0 <= j < s.r.a.Length1 && IsDoorState(old(s.r.a[i, j].walls[e])) ==>
      s.r.a[i, j].walls[e] == DrawnRand(s.r.chance, NextInt(Skip(s.ints, Visit(s.r.orig, false, s.r.a.Length1).LaterDraw((i, j), e))))
  {
    var a, chance, v := s.r.a, s.r.chance, Visit(s.r.orig, false, s.r.a.Length1);
    AllDrawn(a, chance, v, IntDraw(chance, s.ints));
    DrawnColumnsSettled(a, chance, v, s.ints, a.Length0);
    forall i, j, e: Dir | 0 <= i < a.Length0 && 0 <= j < a.Length1 && IsDoorState(old(a[i, j].walls[e]))
      ensures a[i, j].walls[e] == DrawnRand(chance, NextInt(Skip(s.ints, v.LaterDraw((i, j), e))))
    {
      assert (i, j) in AllCells(a);
    }
    RedrawnFromOld(s.r);
    RedrawnKeepsHoles(s.r);
    if old(HolePerCell(a)) {
      HolesStay(a);
    }
  }

  /** The end of column x in `ShuffleDoors`: the visits so far leave the doors as at the
      start of column x + 1, the doors of the columns up to x are as the chance allows, and the
      tape t left after the column's draws is the tape after the first x + 1 columns. */
  lemma ColumnDone(a: Grid, chance: real, v: Visit, ints: seq<nat>, x: int, drawn: nat, t: seq<nat>)
    requires !v.rowMajor && v.len == a.Length1 && 0 <= x < a.Length0
    requires WellFormed(a) && GridRedrawnFrom(v.orig, a, chance) && DrawnBefore(a, v, IntDraw(chance, ints), (x, v.len))
    requires drawn == v.LineDraws(x, v.len) && t == Skip(Skip(ints, v.LinesDraws(x)), drawn)
    ensures DrawnBefore(a, v, IntDraw(chance, ints), (x + 1, 0)) && DoorsSettledCol(a, chance, x + 1, 0)
    ensures t == Skip(ints, v.LinesDraws(x + 1))
  {
    LineDone(a, chance, v, IntDraw(chance, ints), x);
    DrawnColumnsSettled(a, chance, v, ints, x + 1);
    SkipMore(ints, v.LinesDraws(x), drawn);
    v.LinesNext(x);
  }

  /** Doors as the visits before column x leave them, with the states drawn from the tape
      ints, are as the chance allows in every column before x. */
  lemma DrawnColumnsSettled(a: Grid, chance: real, v: Visit, ints: seq<nat>, x: int)
    requires !v.rowMajor && GridRedrawnFrom(v.orig, a, chance) && DrawnBefore(a, v, IntDraw(chance, ints), (x, 0))
    ensures DoorsSettledCol(a, chance, x, 0)
  {
    forall i, j, e: Dir | 0 <= i < a.Length0 && 0 <= j < a.Length1 && i < x && IsDoorState(a[i, j].walls[e])
      ensures Settles(chance, a[i, j].walls[e])
    {
      assert Redrawn(chance, v.orig[(i, j)].walls[e], a[i, j].walls[e]);
      assert DrawnAt(a, v, IntDraw(chance, ints), (i, j), e, (x, 0));
    }
  }

  class BaseMaze {
    /** The cells, indexed `[x, y]`: `mCells` of `Maze` (a vector of columns) or of
        `StaticMaze` (an array of columns). */
    const cells: Grid

    /** Both sides of a shared wall agree, the border is walled, and there is a cell. */
    ghost predicate Valid()
      reads this, cells
    {
      WellFormed(cells) && cells.Length0 > 0 && cells.Length1 > 0
    }

    function Width(): nat { cells.Length0 }
    function Height(): nat { cells.Length1 }

    /** `IsInMaze`: the position is one of the grid's `Width() × Height()` cells. */
    predicate IsInMaze(x: int, y: int)
      ensures IsInMaze(x, y) <==> (x, y) in AllCells(cells)
    {
      x >= 0 && x < Width() && y >= 0 && y < Height()
    }

    /** The constructors of `Maze(w, h)` and `StaticMaze<W, H>`: `w×h` fresh cells, then
        `Generate`. `Maze::Height()` reads the first column, so there must be one; the
        height must be above zero too, so that the grid has a cell to start from. */
    constructor (w: nat, h: nat, rng: Random)
      requires w > 0 && h > 0
      modifies rng
      ensures fresh(cells) && cells.Length0 == w && cells.Length1 == h
      ensures Valid() && NoDoors(cells) && SpanningTree(cells)
      ensures w * h > 1 ==> HolePerCell(cells)
    {
      cells := new CellData[w, h]((i, j) => NewCellData());
      new;
      Generate(rng);
    }

    /** `Reset`: every cell is reset, column by column. */
    method Reset(allWalls: bool)
      modifies cells
      ensures forall i, j :: 0 <= i < Width() && 0 <= j < Height() ==>
        cells[i, j] == CellData(if allWalls then [Wall, Wall, Wall, Wall] else [Empty, Empty, Empty, Empty])
    {
      var c := NewCellData().Reset(allWalls);
      for i := 0 to Width()
        invariant forall i', j' :: 0 <= i' < i && 0 <= j' < Height() ==> cells[i', j'] == c
      {
        for j := 0 to Height()
          invariant forall i', j' :: 0 <= i' < i && 0 <= j' < Height() ==> cells[i', j'] == c
          invariant forall j' :: 0 <= j' < j ==> cells[i, j'] == c
        {
          cells[i, j] := cells[i, j].Reset(allWalls);
        }
      }
    }

    /** `CarvePath`: open the wall on side d of (x, y) and the facing side of the neighbour,
        with an open door when `withDoor`. It refuses, changing nothing, when there is no
        neighbour or the wall is not blocked. */
    method CarvePath(x: int, y: int, d: Dir, withDoor: bool) returns (ok: bool)
      requires IsInMaze(x, y)
      modifies cells
      ensures ok <==> InBounds(cells, Step((x, y), d)) && old(Blocked(WallAt(cells, (x, y), d)))
      ensures ok ==> SharedWallWritten(WallWrite(cells, (x, y), d, if withDoor then WallState.OpenDoor else Empty))
      ensures !ok ==> unchanged(cells)
      ensures old(WellFormed(cells)) ==> WellFormed(cells)
    {
      var nextCell := CellInDir(cells, (x, y), d);
      if nextCell.None? {
        return false;
      }
      if !cells[x, y].TestDir(d, IsBlocked) {
        return false;
      }
      var n := Step((x, y), d);
      StepBack((x, y), d);
      cells[x, y] := cells[x, y].BreakWall(d, withDoor);
      cells[n.0, n.1] := nextCell.value.BreakWall(Opposite(d), withDoor);
      ok := true;
      var w := WallWrite(cells, (x, y), d, if withDoor then WallState.OpenDoor else Empty);
      assert SharedWallWritten(w);
      if old(WellFormed(cells)) {
        SharedWallKeepsSymmetry(w);
        SharedWallKeepsBorder(w);
      }
    }

    /** The carving step of `CarvePathRecursive`: `CarvePath` from a reached cell into a fresh,
        fully walled neighbour, which then joins the tree as the cell's child. */
    method CarveInto(x: int, y: int, dir: Dir, ghost t: Tree)
      requires Carving(cells, t) && (x, y) in t.visited
      requires InBounds(cells, Step((x, y), dir)) && Step((x, y), dir) !in t.visited
      requires cells[Step((x, y), dir).0, Step((x, y), dir).1].IsFullyWalled()
      requires Blocked(WallAt(cells, (x, y), dir))
      modifies cells
      ensures Carving(cells, t.Grow((x, y), dir))
    {
      var ok := CarvePath(x, y, dir, false);
      CarveStep(CarveMove(WallWrite(cells, (x, y), dir, Empty), t));
    }

    /** `CarvePathRecursive`: for each direction of a freshly shuffled order
        (`ForEachDirRandomOrder`), carve into the neighbour there if it is still fully walled
        and recurse from it. What is carved stays a tree rooted at the start, and when the
        call returns every neighbour of (x, y) and of each cell it visited has been visited. */
    method CarvePathRecursive(x: int, y: int, rng: Random, ghost t: Tree) returns (ghost t': Tree)
      requires Carving(cells, t) && (x, y) in t.visited
      modifies cells, rng
      ensures Carving(cells, t') && t'.start == t.start && t.visited <= t'.visited
      ensures AllSurrounded(cells, t'.visited - t.visited + {(x, y)}, t'.visited)
      decreases |AllCells(cells) - t.visited|
    {
      var directions := rng.Shuffled();
      t' := t;
      for k := 0 to 4
        invariant Carving(cells, t') && t'.start == t.start && t.visited <= t'.visited
        invariant AllSurrounded(cells, t'.visited - t.visited, t'.visited)
        invariant HandledDirs(cells, (x, y), directions[..k], t'.visited)
      {
        var dir := directions[k];
        ghost var v0 := t'.visited;
        var cellInDir := CellInDir(cells, (x, y), dir);
        if cellInDir.Some? {
          var n := Step((x, y), dir);
          if !cellInDir.value.IsFullyWalled() {
            OpenCellIsVisited(cells, t', n);
          } else {
            WalledNeighbourIsNew(cells, t', (x, y), dir);
            CarveInto(x, y, dir, t');
            FewerUnvisited(cells, t.visited, t'.visited, n);
            t' := CarvePathRecursive(n.0, n.1, rng, t'.Grow((x, y), dir));
            AbsorbChild(cells, t.visited, v0, t'.visited, n);
          }
        }
        HandledOneMore(cells, (x, y), directions, k, v0, t'.visited);
      }
      HandledAll(cells, (x, y), directions, t'.visited);
    }

    /** `Generate`: reset every cell to all walls and carve from (0, 0). Each call of the
        recursion has its own shuffled order, so every cell is reached and the passages form
        a spanning tree: one passage fewer than cells, every cell with a walk to (0, 0). */
    method Generate(rng: Random)
      requires cells.Length0 > 0 && cells.Length1 > 0
      modifies cells, rng
      ensures Valid() && NoDoors(cells) && SpanningTree(cells)
      ensures Width() * Height() > 1 ==> HolePerCell(cells)
    {
      Reset(true);
      CarvingStarts(cells, (0, 0));
      var t := CarvePathRecursive(0, 0, rng, Tree((0, 0), {(0, 0)}, map[(0, 0) := 0], map[]));
      SurroundedCoversGrid(cells, t.visited);
      FullTreeSpans(cells, t);
      if Width() * Height() > 1 {
        AllCellsCount(cells);
        FullTreeHasHoles(cells, t);
      }
    }

    /** The fallback of `Braid`: starting after `from`, try each direction in turn, without a
        door, until one can be carved. Such a direction exists because a cell with three or
        more blocked sides has one towards a neighbour once the maze is at least 2×2. */
    method CarveNextFrom(x: int, y: int, from: Dir) returns (d: Dir)
      requires Valid() && IsInMaze(x, y) && Width() >= 2 && Height() >= 2
      requires cells[x, y].WallCount() >= 3
      modifies cells
      ensures old(Blocked(WallAt(cells, (x, y), d)))
      ensures SharedWallWritten(WallWrite(cells, (x, y), d, Empty))
    {
      BlockedSideInside(cells, (x, y));
      ghost var target: Dir :| InBounds(cells, Step((x, y), target)) && Blocked(WallAt(cells, (x, y), target));
      d := NextDir(from);
      var ok := CarvePath(x, y, d, false);
      while !ok
        invariant !ok ==> unchanged(cells) && d != target
        invariant ok ==> old(Blocked(WallAt(cells, (x, y), d))) && SharedWallWritten(WallWrite(cells, (x, y), d, Empty))
        decreases if ok then 0 else Ahead(d, target) + 1
      {
        d := NextDir(d);
        ok := CarvePath(x, y, d, false);
      }
    }

    /** `Braid`'s fallback when the wall facing the first hole is on the border: open the
        first blocked wall after it that leads inside, which lowers the cell's count by one. */
    method BraidFallback(x: int, y: int, from: Dir)
      requires Valid() && IsInMaze(x, y) && Width() >= 2 && Height() >= 2
      requires cells[x, y].WallCount() >= 3
      modifies cells
      ensures Valid()
      ensures CountsNoHigher(cells) && HolesKept(cells)
      ensures cells[x, y].WallCount() + 1 == old(cells[x, y].WallCount())
      ensures old(NoDoors(cells)) ==> NoDoors(cells)
    {
      var d := CarveNextFrom(x, y, from);
      var w := WallWrite(cells, (x, y), d, Empty);
      SharedWallKeepsSymmetry(w);
      SharedWallKeepsBorder(w);
      OpeningLowersCounts(w);
      CarveKeepsHoles(w);
      if old(NoDoors(cells)) {
        CarveKeepsNoDoors(w);
      }
    }

    /** One cell of `Braid`, as in the C# engine: a cell with three or more blocked sides
        loses one of them, the wall across from the first hole first (with a door when
        `withDoors`), otherwise the following directions in turn without a door. */
    method BraidCell(x: int, y: int, withDoors: bool)
      requires Valid() && IsInMaze(x, y) && Width() >= 2 && Height() >= 2
      modifies cells
      ensures Valid()
      ensures CountsNoHigher(cells)
      ensures old(HolePerCell(cells)) ==> HolePerCell(cells)
      ensures old(cells[x, y].WallCount()) < 3 ==> unchanged(cells)
      ensures old(cells[x, y].WallCount()) >= 3 ==> cells[x, y].WallCount() + 1 == old(cells[x, y].WallCount())
      ensures cells[x, y].WallCount() <= Max(2, old(cells[x, y].WallCount()) - 1)
      ensures !withDoors && old(NoDoors(cells)) ==> NoDoors(cells)
    {
      var wallCount := cells[x, y].WallCount();
      if wallCount < 3 {
        return;
      }
      var firstHole := cells[x, y].GetFirstHole();
      var middleWallDir := ((firstHole as int + 2) % 4) as Dir;
      var ok := CarvePath(x, y, middleWallDir, withDoors);
      if ok {
        var w := WallWrite(cells, (x, y), middleWallDir, if withDoors then WallState.OpenDoor else Empty);
        OpeningLowersCounts(w);
        CarveKeepsHoles(w);
        if old(HolePerCell(cells)) {
          HolesStay(cells);
        }
        if !withDoors && old(NoDoors(cells)) {
          CarveKeepsNoDoors(w);
        }
      } else {
        BraidFallback(x, y, middleWallDir);
        if old(HolePerCell(cells)) {
          HolesStay(cells);
        }
      }
    }

    /** `Braid`: visit the cells column by column and give every cell found with three or
        more blocked sides one more opening. No count goes up and no cell loses its last
        Empty side; every cell ends with at most two blocked sides or one fewer than it started with, so a
        maze without a fully walled cell ends without dead ends. */
    method Braid(withDoors: bool)
      requires Valid() && Width() >= 2 && Height() >= 2
      modifies cells
      ensures Valid()
      ensures CountsNoHigher(cells)
      ensures old(HolePerCell(cells)) ==> HolePerCell(cells)
      ensures BraidedBeforeCol(cells, Width(), 0)
      ensures forall i, j :: 0 <= i < Width() && 0 <= j < Height() ==> cells[i, j].WallCount() <= 3
      ensures (forall i, j :: 0 <= i < Width() && 0 <= j < Height() ==> !old(cells[i, j].IsFullyWalled())) ==>
        forall i, j :: 0 <= i < Width() && 0 <= j < Height() ==> cells[i, j].WallCount() <= 2
      ensures !withDoors && old(NoDoors(cells)) ==> NoDoors(cells)
    {
      for x := 0 to Width()
        invariant Valid() && CountsNoHigher(cells)
        invariant old(HolePerCell(cells)) ==> HolePerCell(cells)
        invariant BraidedBeforeCol(cells, x, 0)
        invariant !withDoors && old(NoDoors(cells)) ==> NoDoors(cells)
      {
        label pre:
        BraidColumn(x, withDoors);
        forall i, j | 0 <= i < Width() && 0 <= j < Height() && i < x + 1
          ensures cells[i, j].WallCount() <= Max(2, old(cells[i, j].WallCount()) - 1)
        {
          if i == x {
            assert old@pre(cells[i, j].WallCount()) <= old(cells[i, j].WallCount());
          } else {
            assert cells[i, j].WallCount() <= old@pre(cells[i, j].WallCount());
            assert old@pre(cells[i, j].WallCount()) <= Max(2, old(cells[i, j].WallCount()) - 1);
          }
        }
      }
    }

    /** The inner loop of `Braid`: braid the cells of column x from top to bottom. */
    method BraidColumn(x: int, withDoors: bool)
      requires Valid() && 0 <= x < Width() && Width() >= 2 && Height() >= 2
      modifies cells
      ensures Valid()
      ensures CountsNoHigher(cells)
      ensures old(HolePerCell(cells)) ==> HolePerCell(cells)
      ensures forall j :: 0 <= j < Height() ==> cells[x, j].WallCount() <= Max(2, old(cells[x, j].WallCount()) - 1)
      ensures !withDoors && old(NoDoors(cells)) ==> NoDoors(cells)
    {
      for y := 0 to Height()
        invariant Valid() && CountsNoHigher(cells)
        invariant old(HolePerCell(cells)) ==> HolePerCell(cells)
        invariant forall j :: 0 <= j < y ==> cells[x, j].WallCount() <= Max(2, old(cells[x, j].WallCount()) - 1)
        invariant !withDoors && old(NoDoors(cells)) ==> NoDoors(cells)
      {
        label pre:
        BraidCell(x, y, withDoors);
        forall j | 0 <= j < y + 1
          ensures cells[x, j].WallCount() <= Max(2, old(cells[x, j].WallCount()) - 1)
        {
          if j == y {
            assert old@pre(cells[x, j].WallCount()) <= old(cells[x, j].WallCount());
          } else {
            assert cells[x, j].WallCount() <= old@pre(cells[x, j].WallCount());
            assert old@pre(cells[x, j].WallCount()) <= Max(2, old(cells[x, j].WallCount()) - 1);
          }
        }
      }
    }

    /** The two sides of the door on side d of (x, y) are closed together when `close` and
        opened together otherwise. The neighbour always exists: a door never faces the
        border. */
    method SetDoorPair(x: int, y: int, d: Dir, close: bool)
      requires Valid() && IsInMaze(x, y) && cells[x, y].TestDir(d, IsDoor)
      modifies cells
      ensures Valid()
      ensures forall i, j, e: Dir :: 0 <= i < Width() && 0 <= j < Height() ==>
        cells[i, j].walls[e] == old(cells[i, j].walls[e]) ||
        (IsDoorState(old(cells[i, j].walls[e])) && cells[i, j].walls[e] == if close then ClosedDoor else WallState.OpenDoor)
      ensures cells[x, y].walls[d] == if close then ClosedDoor else WallState.OpenDoor
      ensures forall e: Dir :: e != d ==> cells[x, y].walls[e] == old(cells[x, y].walls[e])
      ensures OnlyAround(cells, (x, y))
    {
      DoorHasNeighbour(cells, (x, y), d);
      var nextCell := CellInDir(cells, (x, y), d);
      var n := Step((x, y), d);
      StepBack((x, y), d);
      if close {
        cells[x, y] := cells[x, y].CloseDoor(d);
        cells[n.0, n.1] := nextCell.value.CloseDoor(Opposite(d));
      } else {
        cells[x, y] := cells[x, y].OpenDoor(d);
        cells[n.0, n.1] := nextCell.value.OpenDoor(Opposite(d));
      }
      var w := WallWrite(cells, (x, y), d, if close then ClosedDoor else WallState.OpenDoor);
      assert SharedWallWritten(w);
      SharedWallKeepsSymmetry(w);
      SharedWallKeepsBorder(w);
    }

    /** One cell of `ShuffleDoors`: each side of (x, y) that holds a door, in direction order,
        draws `rand()` and closes the door pair when `rand() % 100` is below a hundred times
        the chance, opens it otherwise. */
    method ShuffleCellDoors(x: int, y: int, chance: real, rng: Random)
      requires Valid() && IsInMaze(x, y)
      modifies cells, rng
      ensures Valid() && GridRedrawn(cells, chance)
      ensures forall d: Dir :: IsDoorState(old(cells[x, y].walls[d])) ==>
        cells[x, y].walls[d] == DrawnRand(chance, NextInt(Skip(old(rng.ints), DoorsBefore(old(cells[x, y]), d))))
      ensures forall d: Dir :: IsDoorState(cells[x, y].walls[d]) ==> Settles(chance, cells[x, y].walls[d])
      ensures rng.ints == Skip(old(rng.ints), DoorsBefore(old(cells[x, y]), Count))
      ensures rng.units == old(rng.units) && rng.orders == old(rng.orders)
      ensures OnlyAround(cells, (x, y))
    {
      ghost var c0, orig := cells[x, y], Snapshot(cells);
      RedrawnFromSnapshot(cells, chance);
      for k := 0 to 4
        invariant Valid() && GridRedrawnFrom(orig, cells, chance)
        invariant forall d: Dir :: k as Direction <= d ==> cells[x, y].walls[d] == c0.walls[d]
        invariant forall d: Dir :: d < k as Direction && IsDoorState(c0.walls[d]) ==>
          cells[x, y].walls[d] == DrawnRand(chance, NextInt(Skip(old(rng.ints), DoorsBefore(c0, d))))
        invariant rng.ints == Skip(old(rng.ints), DoorsBefore(c0, k as Direction))
        invariant rng.units == old(rng.units) && rng.orders == old(rng.orders)
        invariant OnlyAround(cells, (x, y))
      {
        var dir := k as Dir;
        assert DoorsBefore(c0, dir as Direction + 1) == DoorsBefore(c0, dir) + (if IsDoorState(c0.walls[dir]) then 1 else 0);
        SkipMore(old(rng.ints), DoorsBefore(c0, dir), 1);
        ShuffleSideDoor(x, y, dir, chance, rng, orig);
      }
      RedrawnFromOld(Redraw(cells, chance, orig));
    }

    /** The action `ShuffleDoors` hands `ForEachDir` for side d of (x, y): nothing unless the
        side holds a door; otherwise one `rand()` is drawn and the door pair set by it. */
    method ShuffleSideDoor(x: int, y: int, d: Dir, chance: real, rng: Random, ghost orig: map<Pos, CellData>)
      requires Valid() && IsInMaze(x, y) && GridRedrawnFrom(orig, cells, chance)
      modifies cells, rng
      ensures Valid() && GridRedrawnFrom(orig, cells, chance)
      ensures forall e: Dir :: e != d ==> cells[x, y].walls[e] == old(cells[x, y].walls[e])
      ensures IsDoorState(old(cells[x, y].walls[d])) ==>
        cells[x, y].walls[d] == DrawnRand(chance, NextInt(old(rng.ints))) && rng.ints == Rest(old(rng.ints))
      ensures !IsDoorState(old(cells[x, y].walls[d])) ==>
        cells[x, y].walls[d] == old(cells[x, y].walls[d]) && rng.ints == old(rng.ints)
      ensures rng.units == old(rng.units) && rng.orders == old(rng.orders)
      ensures OnlyAround(cells, (x, y))
    {
      if !cells[x, y].TestDir(d, IsDoor) {
        return;
      }
      var r := rng.Rand();
      label pre:
      SetDoorPair(x, y, d, ((r % 100) as real) < chance * 100.0);
      DoorWriteRedrawn@pre(DoorWrite(Redraw(cells, chance, orig), DrawnRand(chance, r)));
    }

    /** `ShuffleDoors`: visit the cells column by column and redraw every door. Each side of a
        cell that holds a door draws the next `rand()`, so a door is set twice, once from each
        of its cells, and ends as the draw taken at the later of the two visits. As many values
        are drawn as there are door sides. The same sides hold doors as before and every other
        wall is untouched; both sides of a door stay alike, and a chance of at most 0 leaves
        every door open, a chance above 1 every door closed. The loops read the cells only
        inside the grid, so a grid without cells is accepted too. */
    method ShuffleDoors(chance: real, rng: Random)
      requires WellFormed(cells)
      modifies cells, rng
      ensures WellFormed(cells) && (old(Valid()) ==> Valid()) && GridRedrawn(cells, chance) && HolesKept(cells)
      ensures old(HolePerCell(cells)) ==> HolePerCell(cells)
      ensures DoorsSettledCol(cells, chance, Width(), 0)
      ensures forall i, j, e: Dir :: 0 <= i < Width() && 0 <= j < Height() && IsDoorState(old(cells[i, j].walls[e])) ==>
        cells[i, j].walls[e] == DrawnRand(chance, NextInt(Skip(old(rng.ints), Visit(old(Snapshot(cells)), false, Height()).LaterDraw((i, j), e))))
      ensures rng.ints == Skip(old(rng.ints), Visit(old(Snapshot(cells)), false, Height()).LinesDraws(Width()))
      ensures rng.units == old(rng.units) && rng.orders == old(rng.orders)
    {
      ghost var v := Visit(Snapshot(cells), false, Height());
      RedrawnFromSnapshot(cells, chance);
      DrawnAtStart(cells, v, IntDraw(chance, rng.ints));
      for x := 0 to Width()
        invariant WellFormed(cells) && GridRedrawnFrom(v.orig, cells, chance)
        invariant DrawnBefore(cells, v, IntDraw(chance, old(rng.ints)), (x, 0))
        invariant rng.ints == Skip(old(rng.ints), v.LinesDraws(x))
        invariant rng.units == old(rng.units) && rng.orders == old(rng.orders)
      {
        ghost var more := ShuffleColumnDoors(x, chance, rng, v, old(rng.ints));
      }
      IntsShuffled(IntsShuffle(Redraw(cells, chance, v.orig), old(rng.ints)));
    }

    /** The inner loop of `ShuffleDoors`: redraw the doors of column x, cell by cell. The
        column draws one value per door side of its cells; afterwards every door is as the
        visits up to the end of the column leave it, and every door of the columns up to x is
        as the chance allows. */
    method ShuffleColumnDoors(x: int, chance: real, rng: Random, ghost v: Visit, ghost ints: seq<nat>) returns (ghost drawn: nat)
      requires WellFormed(cells) && 0 <= x < Width() && !v.rowMajor && v.len == Height()
      requires GridRedrawnFrom(v.orig, cells, chance)
      requires DrawnBefore(cells, v, IntDraw(chance, ints), (x, 0)) && rng.ints == Skip(ints, v.LinesDraws(x))
      modifies cells, rng
      ensures WellFormed(cells) && GridRedrawnFrom(v.orig, cells, chance) && DoorsSettledCol(cells, chance, x + 1, 0)
      ensures DrawnBefore(cells, v, IntDraw(chance, ints), (x + 1, 0))
      ensures drawn == v.LineDraws(x, Height()) && rng.ints == Skip(old(rng.ints), drawn)
      ensures rng.ints == Skip(ints, v.LinesDraws(x + 1))
      ensures rng.units == old(rng.units) && rng.orders == old(rng.orders)
    {
      drawn := 0;
      for y := 0 to Height()
        invariant WellFormed(cells) && GridRedrawnFrom(v.orig, cells, chance)
        invariant DrawnBefore(cells, v, IntDraw(chance, ints), (x, y))
        invariant drawn == v.LineDraws(x, y) && rng.ints == Skip(old(rng.ints), drawn)
        invariant rng.units == old(rng.units) && rng.orders == old(rng.orders)
      {
        drawn := ShuffleColumnCell(x, y, chance, rng, v, ints, old(rng.ints), drawn);
      }
      ColumnDone(cells, chance, v, ints, x, drawn, rng.ints);
    }

    /** One step of `ShuffleColumnDoors`: visit (x, y) after the first y cells of column x,
        which drew `drawn` values from `column`, the tape as the column began. */
    method ShuffleColumnCell(x: int, y: int, chance: real, rng: Random, ghost v: Visit, ghost ints: seq<nat>,
                             ghost column: seq<nat>, ghost drawn: nat) returns (ghost drawn': nat)
      requires WellFormed(cells) && IsInMaze(x, y) && !v.rowMajor && v.len == Height()
      requires GridRedrawnFrom(v.orig, cells, chance) && DrawnBefore(cells, v, IntDraw(chance, ints), (x, y))
      requires column == Skip(ints, v.LinesDraws(x)) && drawn == v.LineDraws(x, y) && rng.ints == Skip(column, drawn)
      modifies cells, rng
      ensures WellFormed(cells) && GridRedrawnFrom(v.orig, cells, chance) && DrawnBefore(cells, v, IntDraw(chance, ints), (x, y + 1))
      ensures drawn' == v.LineDraws(x, y + 1) && rng.ints == Skip(column, drawn')
      ensures rng.units == old(rng.units) && rng.orders == old(rng.orders)
    {
      ghost var c := cells[x, y];
      DrawsAsInOrig(cells, chance, v.orig, (x, y));
      SkipMore(column, drawn, DoorsBefore(c, Count));
      SkipMore(ints, v.LinesDraws(x), drawn);
      v.ColumnPlace(x, y);
      ShuffleCellDoors(x, y, chance, rng);
      RedrawnFromChain(Redraw(cells, chance, v.orig));
      IntsCellDrawn(IntsCellDraw(CellDraw(cells, chance, v, IntDraw(chance, ints), (x, y)), ints, old(rng.ints)));
      drawn' := drawn + DoorsBefore(c, Count);
    }

    /** `FindBestPath`: A* with unit steps and the Manhattan heuristic from `from` to `to`.
        There is no answer when one of the source's assertions fails: an endpoint outside the
        maze (the first), or a goal the search never reached (the backtrack's lookup of
        `cameFrom`). So there is an answer exactly when `to` is reachable from `from` inside
        the maze, and it is a walk from `from` to `to` that no other walk is shorter than,
        empty when the two coincide. */
    method FindBestPath(from: Pos, to: Pos) returns (r: Option<seq<Dir>>)
      requires Valid()
      ensures r.None? <==> !IsInMaze(from.0, from.1) || !IsInMaze(to.0, to.1) || !Reachable(cells, from, to)
      ensures r.Some? ==> IsWalk(cells, from, r.value, to)
      ensures r.Some? ==> forall w :: IsWalk(cells, from, w, to) ==> |r.value| <= |w|
      ensures r.Some? && from == to ==> r.value == []
    {
      if !IsInMaze(from.0, from.1) || !IsInMaze(to.0, to.1) {
        return None;
      }
      if from == to {
        assert IsWalk(cells, from, [], to);
        return Some([]);
      }
      var q := Query(from, to, (-1, -1));
      var costSoFar, cameFrom := RunSearch(cells, q);
      if to !in cameFrom {
        return None;
      }
      var path := Backtrack(cells, q, costSoFar, cameFrom);
      r := Some(path);
    }

    /** `ValidateMazeState`, with its assertions as the answer: cell by cell, column by
        column, each side that has a neighbour agrees with the neighbour's facing side, and
        the cell is not fully walled. */
    method ValidateMazeState() returns (ok: bool)
      ensures ok <==> MazeStateValid(cells)
    {
      ok := true;
      for i := 0 to Width()
        invariant ok <==> forall p: Pos, d: Dir :: InBounds(cells, p) && p.0 < i ==> CheckedAt(cells, p, d)
      {
        for j := 0 to Height()
          invariant ok <==> forall p: Pos, d: Dir :: InBounds(cells, p) && (p.0 < i || (p.0 == i && p.1 < j)) ==>
            CheckedAt(cells, p, d)
        {
          for k := 0 to 4
            invariant ok <==> forall p: Pos, d: Dir ::
              InBounds(cells, p) && (p.0 < i || (p.0 == i && (p.1 < j || (p.1 == j && d < k as Direction)))) ==>
                CheckedAt(cells, p, d)
          {
            var dir := k as Dir;
            ghost var before := ok;
            var nextCell := CellInDir(cells, (i, j), dir);
            if nextCell.Some? {
              ok := ok && cells[i, j].GetWallState(dir) == nextCell.value.GetWallState(Opposite(dir));
              ok := ok && cells[i, j].WallCount() != 4;
            }
            assert ok <==> before && CheckedAt(cells, (i, j), dir);
          }
        }
      }
    }
  }
}
