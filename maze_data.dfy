/**
 * The `Maze` class of MazeData.cs: a `W×H` array of cells, generated by recursive
 * backtracking over the shared direction buffer, braided, with its doors shuffled, searched
 * with A*, and validated.
 */
module MazeData {
  import opened MazeCells
  import opened MazeGrid
  import opened RandomTape
  import opened MazeUtil
  import opened PathSearch
  import opened DoorDraws

  class Maze {
    /** `mCells`, indexed `[x, y]`. */
    const cells: Grid

    /** The state every public operation keeps: both sides of a shared wall agree and the
        border is walled. */
    ghost predicate Valid()
      reads this, cells
    {
      WellFormed(cells)
    }

    function Width(): nat { cells.Length0 }
    function Height(): nat { cells.Length1 }

    /** `IsInMaze`: the position is one of the grid's `Width() × Height()` cells. */
    predicate IsInMaze(x: int, y: int)
      ensures IsInMaze(x, y) <==> (x, y) in AllCells(cells)
    {
      x >= 0 && x < Width() && y >= 0 && y < Height()
    }

    /** The constructor: a `w×h` array of fresh cells, then `Generate`. */
    constructor (w: nat, h: nat, buf: DirectionBuffer, rng: Random)
      requires buf.Valid()
      modifies buf.directions, rng
      ensures fresh(cells) && cells.Length0 == w && cells.Length1 == h
      ensures buf.Valid()
      ensures Valid()
      ensures w > 0 && h > 0 ==> exists t: Tree :: t.start == (0, 0) && Carving(cells, t)
    {
      cells := new CellData[w, h]((i, j) => NewCellData());
      new;
      var t := Generate(buf, rng);
    }

    /** `Reset`: every cell is reset, row by row. */
    method Reset(allWalls: bool)
      modifies cells
      ensures forall i, j :: 0 <= i < Width() && 0 <= j < Height() ==>
        cells[i, j] == CellData(if allWalls then [Wall, Wall, Wall, Wall] else [Empty, Empty, Empty, Empty])
    {
      var c := NewCellData().Reset(allWalls);
      for j := 0 to Height()
        invariant forall i', j' :: 0 <= i' < Width() && 0 <= j' < j ==> cells[i', j'] == c
      {
        for i := 0 to Width()
          invariant forall i', j' :: 0 <= i' < Width() && 0 <= j' < j ==> cells[i', j'] == c
          invariant forall i' :: 0 <= i' < i ==> cells[i', j] == c
        {
          cells[i, j] := cells[i, j].Reset(allWalls);
        }
      }
    }

    /** `CarvePath`: open the wall on side d of (x, y) and the facing side of the neighbour,
        with an open door when `withDoor`. It refuses, changing nothing, when there is no
        neighbour or the wall is not blocked. */
    method CarvePath(x: int, y: int, d: Dir, withDoor: bool) returns (ok: bool)
      requires IsInMaze(x, y)
      modifies cells
      ensures ok <==> InBounds(cells, Step((x, y), d)) && old(Blocked(WallAt(cells, (x, y), d)))
      ensures ok ==> SharedWallWritten(WallWrite(cells, (x, y), d, if withDoor then WallState.OpenDoor else Empty))
      ensures !ok ==> unchanged(cells)
      ensures old(WellFormed(cells)) ==> WellFormed(cells)
    {
      var nextCell := CellInDir(cells, (x, y), d);
      if nextCell.None? {
        return false;
      }
      if !cells[x, y].TestDir(d, IsBlocked) {
        return false;
      }
      var n := Step((x, y), d);
      StepBack((x, y), d);
      cells[x, y] := cells[x, y].BreakWall(d, withDoor);
      cells[n.0, n.1] := nextCell.value.BreakWall(Opposite(d), withDoor);
      ok := true;
      var w := WallWrite(cells, (x, y), d, if withDoor then WallState.OpenDoor else Empty);
      assert SharedWallWritten(w);
      if old(WellFormed(cells)) {
        SharedWallKeepsSymmetry(w);
        SharedWallKeepsBorder(w);
      }
    }

    /** The carving step of `CarvePathRecursive`: `CarvePath` from a reached cell into a fresh,
        fully walled neighbour, which then joins the tree as the cell's child. */
    method CarveInto(x: int, y: int, dir: Dir, ghost t: Tree)
      requires Carving(cells, t) && (x, y) in t.visited
      requires InBounds(cells, Step((x, y), dir)) && Step((x, y), dir) !in t.visited
      requires cells[Step((x, y), dir).0, Step((x, y), dir).1].IsFullyWalled()
      requires Blocked(WallAt(cells, (x, y), dir))
      modifies cells
      ensures Carving(cells, t.Grow((x, y), dir))
    {
      var ok := CarvePath(x, y, dir, false);
      CarveStep(CarveMove(WallWrite(cells, (x, y), dir, Empty), t));
    }

    /** `CarvePathRecursive`: shuffle the shared buffer, then for each direction read from it
        carve into the neighbour there if it is still fully walled, and recurse from it. The
        buffer is read afresh on each iteration, so the nested calls' reshuffles decide which
        directions this call goes on to try. What is carved stays a tree rooted at the start
        whose passages are one fewer than its cells. */
    method CarvePathRecursive(x: int, y: int, buf: DirectionBuffer, rng: Random, ghost t: Tree)
      returns (ghost t': Tree)
      requires buf.Valid() && Carving(cells, t) && (x, y) in t.visited
      modifies cells, buf.directions, rng
      ensures buf.Valid() && Carving(cells, t') && t'.start == t.start && t.visited <= t'.visited
      decreases |AllCells(cells) - t.visited|
    {
      buf.ShuffleDirections(rng);
      t' := t;
      for i := 0 to 4
        invariant buf.Valid() && Carving(cells, t') && t'.start == t.start && t.visited <= t'.visited
      {
        var dir := buf.directions[i];
        var cellInDir := CellInDir(cells, (x, y), dir);
        if cellInDir.None? {
          continue;
        }
        if !cellInDir.value.IsFullyWalled() {
          continue;
        }
        var n := Step((x, y), dir);
        WalledNeighbourIsNew(cells, t', (x, y), dir);
        CarveInto(x, y, dir, t');
        FewerUnvisited(cells, t.visited, t'.visited, n);
        t' := CarvePathRecursive(n.0, n.1, buf, rng, t'.Grow((x, y), dir));
      }
    }

    /** `Generate`: reset every cell to all walls and carve from (0, 0). The passages then
        form a tree over the cells reached: one passage fewer than reached cells, and every
        reached cell has a walk to (0, 0); the cells not reached stay fully walled. Reaching
        every cell is not promised, because nested calls reshuffle the shared buffer. */
    method Generate(buf: DirectionBuffer, rng: Random) returns (ghost t: Tree)
      requires buf.Valid()
      modifies cells, buf.directions, rng
      ensures buf.Valid() && Valid()
      ensures Width() > 0 && Height() > 0 ==> t.start == (0, 0) && Carving(cells, t)
    {
      Reset(true);
      if Width() > 0 && Height() > 0 {
        CarvingStarts(cells, (0, 0));
        t := CarvePathRecursive(0, 0, buf, rng, Tree((0, 0), {(0, 0)}, map[(0, 0) := 0], map[]));
      } else {
        // there is no cell: the recursion only shuffles the buffer and finds no neighbour
        buf.ShuffleDirections(rng);
        t := Tree((0, 0), {}, map[], map[]);
      }
    }

    /** The fallback of `Braid`: starting after `from`, try each direction in turn, without a
        door, until one can be carved. Such a direction exists because a cell with three or
        more blocked sides has one towards a neighbour once the maze is at least 2×2. */
    method CarveNextFrom(x: int, y: int, from: Dir) returns (d: Dir)
      requires Valid() && IsInMaze(x, y) && Width() >= 2 && Height() >= 2
      requires cells[x, y].WallCount() >= 3
      modifies cells
      ensures old(Blocked(WallAt(cells, (x, y), d)))
      ensures SharedWallWritten(WallWrite(cells, (x, y), d, Empty))
    {
      BlockedSideInside(cells, (x, y));
      ghost var target: Dir :| InBounds(cells, Step((x, y), target)) && Blocked(WallAt(cells, (x, y), target));
      d := NextDir(from);
      var ok := CarvePath(x, y, d, false);
      while !ok
        invariant !ok ==> unchanged(cells) && d != target
        invariant ok ==> old(Blocked(WallAt(cells, (x, y), d))) && SharedWallWritten(WallWrite(cells, (x, y), d, Empty))
        decreases if ok then 0 else Ahead(d, target) + 1
      {
        d := NextDir(d);
        ok := CarvePath(x, y, d, false);
      }
    }

    /** `Braid`'s fallback when the wall facing the first hole is on the border: open the
        first blocked wall after it that leads inside, which lowers the cell's count by one. */
    method BraidFallback(x: int, y: int, from: Dir)
      requires Valid() && IsInMaze(x, y) && Width() >= 2 && Height() >= 2
      requires cells[x, y].WallCount() >= 3
      modifies cells
      ensures Valid()
      ensures CountsNoHigher(cells)
      ensures cells[x, y].WallCount() + 1 == old(cells[x, y].WallCount())
      ensures old(NoDoors(cells)) ==> NoDoors(cells)
    {
      var d := CarveNextFrom(x, y, from);
      var w := WallWrite(cells, (x, y), d, Empty);
      SharedWallKeepsSymmetry(w);
      SharedWallKeepsBorder(w);
      OpeningLowersCounts(w);
      if old(NoDoors(cells)) {
        CarveKeepsNoDoors(w);
      }
    }

    /** One cell of `Braid`: a cell with three or more blocked sides loses one of them. The
        wall across from the first hole is tried first, with a door when `withDoors`; if it
        cannot be carved, the following directions are tried in turn without a door until one
        can. */
    method BraidCell(x: int, y: int, withDoors: bool)
      requires Valid() && IsInMaze(x, y) && Width() >= 2 && Height() >= 2
      modifies cells
      ensures Valid()
      ensures CountsNoHigher(cells)
      ensures old(cells[x, y].WallCount()) < 3 ==> unchanged(cells)
      ensures old(cells[x, y].WallCount()) >= 3 ==> cells[x, y].WallCount() + 1 == old(cells[x, y].WallCount())
      ensures cells[x, y].WallCount() <= Max(2, old(cells[x, y].WallCount()) - 1)
      ensures !withDoors && old(NoDoors(cells)) ==> NoDoors(cells)
    {
      var wallCount := cells[x, y].WallCount();
      if wallCount < 3 {
        return;
      }
      var firstHole := cells[x, y].GetFirstHole();
      var middleWallDir := ((firstHole as int + 2) % 4) as Dir;
      var ok := CarvePath(x, y, middleWallDir, withDoors);
      if ok {
        var w := WallWrite(cells, (x, y), middleWallDir, if withDoors then WallState.OpenDoor else Empty);
        OpeningLowersCounts(w);
        if !withDoors && old(NoDoors(cells)) {
          CarveKeepsNoDoors(w);
        }
      } else {
        BraidFallback(x, y, middleWallDir);
      }
    }

    /** `Braid`: visit the cells row by row and give every cell found with three or more
        blocked sides one more opening. No count goes up, and every cell ends with at most
        two blocked sides or one fewer than it started with; so a maze without a fully walled
        cell ends without dead ends. Doors appear only with `withDoors`. */
    method Braid(withDoors: bool)
      requires Valid() && Width() >= 2 && Height() >= 2
      modifies cells
      ensures Valid()
      ensures CountsNoHigher(cells)
      ensures BraidedBefore(cells, Height(), 0)
      ensures forall i, j :: 0 <= i < Width() && 0 <= j < Height() ==> cells[i, j].WallCount() <= 3
      ensures (forall i, j :: 0 <= i < Width() && 0 <= j < Height() ==> !old(cells[i, j].IsFullyWalled())) ==>
        forall i, j :: 0 <= i < Width() && 0 <= j < Height() ==> cells[i, j].WallCount() <= 2
      ensures !withDoors && old(NoDoors(cells)) ==> NoDoors(cells)
    {
      for y := 0 to Height()
        invariant Valid() && CountsNoHigher(cells)
        invariant BraidedBefore(cells, y, 0)
        invariant !withDoors && old(NoDoors(cells)) ==> NoDoors(cells)
      {
        for x := 0 to Width()
          invariant Valid() && CountsNoHigher(cells)
          invariant BraidedBefore(cells, y, x)
          invariant !withDoors && old(NoDoors(cells)) ==> NoDoors(cells)
        {
          label pre:
          BraidCell(x, y, withDoors);
          forall i, j | 0 <= i < Width() && 0 <= j < Height() && (j < y || (j == y && i < x + 1))
            ensures cells[i, j].WallCount() <= Max(2, old(cells[i, j].WallCount()) - 1)
          {
            if i == x && j == y {
              assert old@pre(cells[i, j].WallCount()) <= old(cells[i, j].WallCount());
            } else {
              assert cells[i, j].WallCount() <= old@pre(cells[i, j].WallCount());
              assert old@pre(cells[i, j].WallCount()) <= Max(2, old(cells[i, j].WallCount()) - 1);
            }
          }
        }
      }
    }

    /** The two sides of the door on side d of (x, y) are closed together when `close` and
        opened together otherwise: what one `ShuffleDoors` draw decides. */
    method SetDoorPair(x: int, y: int, d: Dir, close: bool)
      requires Valid() && IsInMaze(x, y) && cells[x, y].TestDir(d, IsDoor)
      modifies cells
      ensures Valid()
      ensures forall i, j, e: Dir :: 0 <= i < Width() && 0 <= j < Height() ==>
        cells[i, j].walls[e] == old(cells[i, j].walls[e]) ||
        (IsDoorState(old(cells[i, j].walls[e])) && cells[i, j].walls[e] == if close then ClosedDoor else WallState.OpenDoor)
      ensures cells[x, y].walls[d] == if close then ClosedDoor else WallState.OpenDoor
      ensures forall e: Dir :: e != d ==> cells[x, y].walls[e] == old(cells[x, y].walls[e])
      ensures OnlyAround(cells, (x, y))
    {
      DoorHasNeighbour(cells, (x, y), d);
      var nextCell := CellInDir(cells, (x, y), d);
      var n := Step((x, y), d);
      StepBack((x, y), d);
      if close {
        cells[x, y] := cells[x, y].CloseDoor(d);
        cells[n.0, n.1] := nextCell.value.CloseDoor(Opposite(d));
      } else {
        cells[x, y] := cells[x, y].OpenDoor(d);
        cells[n.0, n.1] := nextCell.value.OpenDoor(Opposite(d));
      }
      var w := WallWrite(cells, (x, y), d, if close then ClosedDoor else WallState.OpenDoor);
      assert SharedWallWritten(w);
      SharedWallKeepsSymmetry(w);
      SharedWallKeepsBorder(w);
    }

    /** One cell of `ShuffleDoors`: each side of (x, y) that holds a door, in direction order,
        draws a value in [0, 1] and closes the door pair when it is below `chance`, opens it
        otherwise. Only the doors of (x, y) and the facing sides of its neighbours change. */
    method ShuffleCellDoors(x: int, y: int, chance: real, rng: Random)
      requires Valid() && IsInMaze(x, y)
      modifies cells, rng
      ensures Valid() && GridRedrawn(cells, chance)
      ensures forall d: Dir :: IsDoorState(old(cells[x, y].walls[d])) ==>
        cells[x, y].walls[d] == Drawn(chance, NextUnit(Skip(old(rng.units), DoorsBefore(old(cells[x, y]), d))))
      ensures forall d: Dir :: IsDoorState(cells[x, y].walls[d]) ==> Settles(chance, cells[x, y].walls[d])
      ensures rng.units == Skip(old(rng.units), DoorsBefore(old(cells[x, y]), Count))
      ensures rng.ints == old(rng.ints) && rng.orders == old(rng.orders)
      ensures OnlyAround(cells, (x, y))
    {
      ghost var c0, orig := cells[x, y], Snapshot(cells);
      RedrawnFromSnapshot(cells, chance);
      for k := 0 to 4
        invariant Valid() && GridRedrawnFrom(orig, cells, chance)
        invariant forall d: Dir :: k as Direction <= d ==> cells[x, y].walls[d] == c0.walls[d]
        invariant forall d: Dir :: d < k as Direction && IsDoorState(c0.walls[d]) ==>
          cells[x, y].walls[d] == Drawn(chance, NextUnit(Skip(old(rng.units), DoorsBefore(c0, d))))
        invariant rng.units == Skip(old(rng.units), DoorsBefore(c0, k as Direction))
        invariant rng.ints == old(rng.ints) && rng.orders == old(rng.orders)
        invariant OnlyAround(cells, (x, y))
      {
        var dir := k as Dir;
        assert DoorsBefore(c0, dir as Direction + 1) == DoorsBefore(c0, dir) + (if IsDoorState(c0.walls[dir]) then 1 else 0);
        SkipMore(old(rng.units), DoorsBefore(c0, dir), 1);
        ShuffleSideDoor(x, y, dir, chance, rng, orig);
      }
      RedrawnFromOld(Redraw(cells, chance, orig));
    }

    /** The action `ShuffleDoors` hands `ForEachDir` for side d of (x, y): nothing unless the
        side holds a door; otherwise one value in [0, 1] is drawn and the door pair set by
        it. */
    method ShuffleSideDoor(x: int, y: int, d: Dir, chance: real, rng: Random, ghost orig: map<Pos, CellData>)
      requires Valid() && IsInMaze(x, y) && GridRedrawnFrom(orig, cells, chance)
      modifies cells, rng
      ensures Valid() && GridRedrawnFrom(orig, cells, chance)
      ensures forall e: Dir :: e != d ==> cells[x, y].walls[e] == old(cells[x, y].walls[e])
      ensures IsDoorState(old(cells[x, y].walls[d])) ==>
        cells[x, y].walls[d] == Drawn(chance, NextUnit(old(rng.units))) && rng.units == Rest(old(rng.units))
      ensures !IsDoorState(old(cells[x, y].walls[d])) ==>
        cells[x, y].walls[d] == old(cells[x, y].walls[d]) && rng.units == old(rng.units)
      ensures rng.ints == old(rng.ints) && rng.orders == old(rng.orders)
      ensures OnlyAround(cells, (x, y))
    {
      if !cells[x, y].TestDir(d, IsDoor) {
        return;
      }
      var u := rng.Value();
      label pre:
      SetDoorPair(x, y, d, u < chance);
      DoorWriteRedrawn@pre(DoorWrite(Redraw(cells, chance, orig), Drawn(chance, u)));
    }

    /** One step of `ShuffleRowDoors`: visit (x, y) after the first x cells of row y, which
        drew `drawn` values from `row`, the tape as the row began. */
    method ShuffleRowCell(x: int, y: int, chance: real, rng: Random, ghost v: Visit, ghost units: seq<Unit>,
                          ghost row: seq<Unit>, ghost drawn: nat) returns (ghost drawn': nat)
      requires Valid() && IsInMaze(x, y) && v.rowMajor && v.len == Width()
      requires GridRedrawnFrom(v.orig, cells, chance) && DrawnBefore(cells, v, UnitDraw(chance, units), (y, x))
      requires row == Skip(units, v.LinesDraws(y)) && drawn == v.LineDraws(y, x) && rng.units == Skip(row, drawn)
      modifies cells, rng
      ensures Valid() && GridRedrawnFrom(v.orig, cells, chance) && DrawnBefore(cells, v, UnitDraw(chance, units), (y, x + 1))
      ensures drawn' == v.LineDraws(y, x + 1) && rng.units == Skip(row, drawn')
      ensures rng.ints == old(rng.ints) && rng.orders == old(rng.orders)
    {
      ghost var c := cells[x, y];
      DrawsAsInOrig(cells, chance, v.orig, (x, y));
      SkipMore(row, drawn, DoorsBefore(c, Count));
      SkipMore(units, v.LinesDraws(y), drawn);
      v.RowPlace(x, y);
      ShuffleCellDoors(x, y, chance, rng);
      RedrawnFromChain(Redraw(cells, chance, v.orig));
      UnitsCellDrawn(UnitsCellDraw(CellDraw(cells, chance, v, UnitDraw(chance, units), (x, y)), units, old(rng.units)));
      drawn' := drawn + DoorsBefore(c, Count);
    }

    /** `ShuffleDoors`: visit the cells row by row and redraw every door. Each side of a cell
        that holds a door takes the next value of the tape, so a door is set twice, once from
        each of its cells, and ends as the draw taken at the later of the two visits: closed
        when that value is below `chance`, open otherwise. As many values are drawn as there
        are door sides. The same sides hold doors as before, every other wall is untouched and
        both sides of a door stay alike. */
    method ShuffleDoors(chance: real, rng: Random)
      requires Valid()
      modifies cells, rng
      ensures Valid() && GridRedrawn(cells, chance)
      ensures DoorsSettled(cells, chance, Height(), 0)
      ensures forall i, j, e: Dir :: 0 <= i < Width() && 0 <= j < Height() && IsDoorState(old(cells[i, j].walls[e])) ==>
        cells[i, j].walls[e] == Drawn(chance, NextUnit(Skip(old(rng.units), Visit(old(Snapshot(cells)), true, Width()).LaterDraw((i, j), e))))
      ensures rng.units == Skip(old(rng.units), Visit(old(Snapshot(cells)), true, Width()).LinesDraws(Height()))
      ensures rng.ints == old(rng.ints) && rng.orders == old(rng.orders)
    {
      ghost var v := Visit(Snapshot(cells), true, Width());
      RedrawnFromSnapshot(cells, chance);
      DrawnAtStart(cells, v, UnitDraw(chance, rng.units));
      for y := 0 to Height()
        invariant Valid() && GridRedrawnFrom(v.orig, cells, chance)
        invariant DrawnBefore(cells, v, UnitDraw(chance, old(rng.units)), (y, 0))
        invariant rng.units == Skip(old(rng.units), v.LinesDraws(y))
        invariant rng.ints == old(rng.ints) && rng.orders == old(rng.orders)
      {
        ghost var more := ShuffleRowDoors(y, chance, rng, v, old(rng.units));
      }
      UnitsShuffled(UnitsShuffle(Redraw(cells, chance, v.orig), old(rng.units)));
    }

    /** The inner loop of `ShuffleDoors`: redraw the doors of row y, cell by cell. The row
        draws one value per door side of its cells; afterwards every door is as the visits up
        to the end of the row leave it, and every door of the rows up to y is as the chance
        allows. */
    method ShuffleRowDoors(y: int, chance: real, rng: Random, ghost v: Visit, ghost units: seq<Unit>) returns (ghost drawn: nat)
      requires Valid() && 0 <= y < Height() && v.rowMajor && v.len == Width()
      requires GridRedrawnFrom(v.orig, cells, chance)
      requires DrawnBefore(cells, v, UnitDraw(chance, units), (y, 0)) && rng.units == Skip(units, v.LinesDraws(y))
      modifies cells, rng
      ensures Valid() && GridRedrawnFrom(v.orig, cells, chance) && DoorsSettled(cells, chance, y + 1, 0)
      ensures DrawnBefore(cells, v, UnitDraw(chance, units), (y + 1, 0))
      ensures drawn == v.LineDraws(y, Width()) && rng.units == Skip(old(rng.units), drawn)
      ensures rng.units == Skip(units, v.LinesDraws(y + 1))
      ensures rng.ints == old(rng.ints) && rng.orders == old(rng.orders)
    {
      drawn := 0;
      for x := 0 to Width()
        invariant Valid() && GridRedrawnFrom(v.orig, cells, chance)
        invariant DrawnBefore(cells, v, UnitDraw(chance, units), (y, x))
        invariant drawn == v.LineDraws(y, x) && rng.units == Skip(old(rng.units), drawn)
        invariant rng.ints == old(rng.ints) && rng.orders == old(rng.orders)
      {
        drawn := ShuffleRowCell(x, y, chance, rng, v, units, old(rng.units), drawn);
      }
      RowDone(cells, chance, v, units, y, drawn, rng.units);
    }

    /** `ForEachDoorWithCoord`: the calls made to the action, in order. Cells are visited row
        by row; each reports its west door, then its south door, with whether it is open. */
    method ForEachDoorWithCoord() returns (r: seq<DoorReport>)
      ensures r == DoorReports(cells, Height())
    {
      r := [];
      ghost var f := ReportsOf(cells);
      for j := 0 to Height()
        invariant r == RowsReports(f, Width(), j)
      {
        ghost var done := r;
        for i := 0 to Width()
          invariant r == done + RowReports(f, j, i)
        {
          ghost var row := RowReports(f, j, i);
          var cell := cells[i, j];
          ghost var west, south := CellWestReport(cell, i, j), CellSouthReport(cell, i, j);
          if cell.TestDir(West, IsDoor) {
            r := r + [DoorReport(cell.TestDir(West, IsOpenDoor), i, j)];
          }
          assert r == done + row + west;
          if cell.TestDir(South, IsDoor) {
            r := r + [DoorReport(cell.TestDir(South, IsOpenDoor), i, j)];
          }
          assert r == done + row + west + south;
          Regroup(done, row, west, south);
          ReportsOfCell(cells, i, j);
          assert RowReports(f, j, i + 1) == row + CellReports(cell, i, j);
        }
      }
    }

    /** `ValidateMazeState`: for every cell and direction with a neighbour, the two sides of
        the shared wall agree and the cell is not fully walled. The source asserts each check;
        `ok` is their conjunction. */
    method ValidateMazeState() returns (ok: bool)
      ensures ok <==> MazeStateValid(cells)
    {
      ok := true;
      for j := 0 to Height()
        invariant ok <==> forall p: Pos, d: Dir :: InBounds(cells, p) && p.1 < j ==> CheckedAt(cells, p, d)
      {
        for i := 0 to Width()
          invariant ok <==> forall p: Pos, d: Dir :: InBounds(cells, p) && (p.1 < j || (p.1 == j && p.0 < i)) ==>
            CheckedAt(cells, p, d)
        {
          for k := 0 to 4
            invariant ok <==> forall p: Pos, d: Dir ::
              InBounds(cells, p) && (p.1 < j || (p.1 == j && (p.0 < i || (p.0 == i && d < k as Direction)))) ==>
                CheckedAt(cells, p, d)
          {
            var dir := k as Dir;
            ghost var before := ok;
            var nextCell := CellInDir(cells, (i, j), dir);
            if nextCell.Some? {
              ok := ok && cells[i, j].GetWallState(dir) == nextCell.value.GetWallState(Opposite(dir));
              ok := ok && cells[i, j].WallCount() != 4;
            }
            assert ok <==> before && CheckedAt(cells, (i, j), dir);
          }
        }
      }
    }

    /** `FindBestPath`: the directions of a shortest walk from `from` to `to` found by A*, with
        the heuristic penalising `last`. The walk is empty when the two coincide; there is none
        (the source throws) when `from` is outside the maze (the first `GetCell`) or when `to`
        is never reached (the backtrack's lookup of `cameFrom`). So an answer is a walk, there
        is an answer exactly when `to` is reachable from `from`, and with no penalised cell in
        the maze the answer is a shortest walk. */
    method FindBestPath(from: Pos, to: Pos, last: Pos) returns (r: Option<seq<Dir>>)
      requires Valid()
      ensures from == to ==> r == Some([])
      ensures r.Some? ==> IsWalk(cells, from, r.value, to)
      ensures r.None? <==> !Reachable(cells, from, to)
      ensures r.Some? && !InBounds(cells, last) ==> forall w :: IsWalk(cells, from, w, to) ==> |r.value| <= |w|
    {
      if from == to {
        assert IsWalk(cells, from, [], to);
        return Some([]);
      }
      if !IsInMaze(from.0, from.1) {
        // The source asserts the endpoints are inside; the first `GetCell(current)` throws.
        assert forall w :: !IsWalk(cells, from, w, to);
        return None;
      }
      var q := Query(from, to, last);
      var costSoFar, cameFrom := RunSearch(cells, q);
      if to !in cameFrom {
        // The frontier ran out without reaching the goal: the backtrack's `cameFrom[goal]` throws.
        return None;
      }
      var path := Backtrack(cells, q, costSoFar, cameFrom);
      r := Some(path);
    }
  }

  /** What `ForEachDoorWithCoord` hands its action: whether the door is open, and the cell. */
  datatype DoorReport = DoorReport(isOpen: bool, x: int, y: int)

  /** The reports of the cell at (i, j): its west door, then its south door. */
  function CellReports(c: CellData, i: int, j: int): (r: seq<DoorReport>)
    ensures |r| <= 2
  {
    CellWestReport(c, i, j) + CellSouthReport(c, i, j)
  }

  /** The report of the west door of a cell, if it has one. */
  function CellWestReport(c: CellData, i: int, j: int): seq<DoorReport>
  {
    if c.TestDir(West, IsDoor) then [DoorReport(c.TestDir(West, IsOpenDoor), i, j)] else []
  }

  /** The report of the south door of a cell, if it has one. */
  function CellSouthReport(c: CellData, i: int, j: int): seq<DoorReport>
  {
    if c.TestDir(South, IsDoor) then [DoorReport(c.TestDir(South, IsOpenDoor), i, j)] else []
  }

  /** The reports of every cell of a grid, by position, taken as a value. */
  ghost function ReportsOf(a: Grid): Pos -> seq<DoorReport>
    reads a
  {
    var m := Snapshot(a);
    p => if p in m then CellReports(m[p], p.0, p.1) else []
  }

  /** The reports of the first i cells of row j. */
  ghost function RowReports(f: Pos -> seq<DoorReport>, j: int, i: nat): seq<DoorReport>
  {
    if i == 0 then [] else RowReports(f, j, i - 1) + f((i - 1, j))
  }

  /** The reports of the first j rows of width w. */
  ghost function RowsReports(f: Pos -> seq<DoorReport>, w: nat, j: nat): seq<DoorReport>
  {
    if j == 0 then [] else RowsReports(f, w, j - 1) + RowReports(f, j - 1, w)
  }

  /** The reports of the first j rows of the grid. */
  ghost function DoorReports(a: Grid, j: nat): seq<DoorReport>
    reads a
  {
    RowsReports(ReportsOf(a), a.Length0, j)
  }

  /** A door on the west or south side of a cell, with whether it is open. */
  ghost predicate ReportedDoor(a: Grid, e: DoorReport)
    reads a
  {
    InBounds(a, (e.x, e.y)) &&
    var c := a[e.x, e.y];
    ((IsDoorState(c.walls[West]) && e.isOpen == (c.walls[West] == WallState.OpenDoor)) ||
     (IsDoorState(c.walls[South]) && e.isOpen == (c.walls[South] == WallState.OpenDoor)))
  }

  /** Appending piece by piece is appending the pieces together. */
  lemma Regroup<T>(a: seq<T>, b: seq<T>, c: seq<T>, d: seq<T>)
    ensures a + b + c + d == a + (b + (c + d))
  {
  }

  /** The reports of a cell inside the grid are those of the cell. */
  lemma ReportsOfCell(a: Grid, i: int, j: int)
    requires InBounds(a, (i, j))
    ensures ReportsOf(a)((i, j)) == CellReports(a[i, j], i, j)
  {
    assert (i, j) in AllCells(a);
  }

  /** Every report names the cell it comes from. */
  ghost predicate Tagged(f: Pos -> seq<DoorReport>)
  {
    forall p: Pos, e :: e in f(p) ==> (e.x, e.y) == p
  }

  /** A cell reports exactly its west and south doors, each under its own position. */
  lemma CellReportsMembers(a: Grid, i: int, j: int, e: DoorReport)
    requires InBounds(a, (i, j))
    ensures e in CellReports(a[i, j], i, j) <==> ReportedDoor(a, e) && e.x == i && e.y == j
  {
  }

  lemma ReportsOfTagged(a: Grid)
    ensures Tagged(ReportsOf(a))
  {
    forall p: Pos, e | e in ReportsOf(a)(p) ensures (e.x, e.y) == p {
      assert p in AllCells(a);
      CellReportsMembers(a, p.0, p.1, e);
    }
  }

  /** The first i reports of row j hold e exactly when e comes from one of its first i cells. */
  lemma {:induction false} RowReportsMembers(f: Pos -> seq<DoorReport>, j: int, i: nat, e: DoorReport)
    requires Tagged(f)
    ensures e in RowReports(f, j, i) <==> e.y == j && 0 <= e.x < i && e in f((e.x, e.y))
  {
    if i > 0 {
      RowReportsMembers(f, j, i - 1, e);
      assert e in f((i - 1, j)) ==> (e.x, e.y) == (i - 1, j);
    }
  }

  /** The first j rows hold e exactly when e comes from a cell in one of them. */
  lemma {:induction false} RowsReportsMembers(f: Pos -> seq<DoorReport>, w: nat, j: nat, e: DoorReport)
    requires Tagged(f)
    ensures e in RowsReports(f, w, j) <==> 0 <= e.y < j && 0 <= e.x < w && e in f((e.x, e.y))
  {
    if j > 0 {
      RowsReportsMembers(f, w, j - 1, e);
      RowReportsMembers(f, j - 1, w, e);
    }
  }

  /** `ForEachDoorWithCoord` reports exactly the west and south doors of the cells, each with
      whether it is open. */
  lemma DoorReportsExact(a: Grid, e: DoorReport)
    ensures e in DoorReports(a, a.Length1) <==> ReportedDoor(a, e)
  {
    ReportsOfTagged(a);
    RowsReportsMembers(ReportsOf(a), a.Length0, a.Length1, e);
    if InBounds(a, (e.x, e.y)) {
      ReportsOfCell(a, e.x, e.y);
      CellReportsMembers(a, e.x, e.y, e);
    }
  }

  /** In a valid maze every door is reported, by the cell on its west or south side, so each
      door between two cells is reported once: by the cell east of it or north of it. */
  lemma EveryDoorReported(a: Grid, p: Pos, d: Dir)
    requires WellFormed(a) && InBounds(a, p) && IsDoorState(WallAt(a, p, d))
    ensures var owner := if d == West || d == South then p else Step(p, d);
      DoorReport(WallAt(a, p, d) == WallState.OpenDoor, owner.0, owner.1) in DoorReports(a, a.Length1)
  {
    DoorHasNeighbour(a, p, d);
    var owner := if d == West || d == South then p else Step(p, d);
    var e := DoorReport(WallAt(a, p, d) == WallState.OpenDoor, owner.0, owner.1);
    DoorReportsExact(a, e);
    if !(d == West || d == South) {
      assert SymmetricAt(a, p, d);
      OppositeInvolution(d);
      StepBack(p, d);
      assert Opposite(d) == West || Opposite(d) == South;
    }
  }

  /** How `ShuffleDoors` sets a door for a draw u: closed when u is below the chance. */
  function Drawn(chance: real, u: Unit): (s: WallState)
    ensures IsDoorState(s) && Settles(chance, s)
  {
    if u < chance then ClosedDoor else WallState.OpenDoor
  }

  /** The door state that the value at position i of the tape units sets. */
  function UnitDraw(chance: real, units: seq<Unit>): nat -> WallState
  {
    (i: nat) => Drawn(chance, NextUnit(Skip(units, i)))
  }

  /** The visit to a cell within `ShuffleDoors` whose draws come from the value tape units. */
  datatype UnitsCellDraw = UnitsCellDraw(k: CellDraw, units: seq<Unit>, here: seq<Unit>)

  /** A cell visit whose door sides take, in direction order, the values of the tape that
      follow the draws of the cells visited before it sets its doors by their own draws. */
  twostate lemma UnitsCellDrawn(u: UnitsCellDraw)
    requires CellVisit(u.k) && u.k.draw == UnitDraw(u.k.chance, u.units) && u.here == Skip(u.units, u.k.v.DrawsBefore(u.k.c))
    requires forall e: Dir :: IsDoorState(old(u.k.a[u.k.c.0, u.k.c.1].walls[e])) ==>
      u.k.a[u.k.c.0, u.k.c.1].walls[e] == Drawn(u.k.chance, NextUnit(Skip(u.here, DoorsBefore(old(u.k.a[u.k.c.0, u.k.c.1]), e))))
    ensures DrawnBefore(u.k.a, u.k.v, u.k.draw, u.k.v.Next(u.k.c))
  {
    var k, c := u.k, u.k.c;
    forall e: Dir | IsDoorState(old(k.a[c.0, c.1].walls[e]))
      ensures k.a[c.0, c.1].walls[e] == k.draw(k.v.DrawIndex(c, e))
    {
      DoorsBeforeSame(old(k.a[c.0, c.1]), k.v.orig[c], e);
      SkipMore(u.units, k.v.DrawsBefore(c), DoorsBefore(old(k.a[c.0, c.1]), e));
    }
    CellDrawn(k);
  }

  /** A whole `ShuffleDoors` with the draws taken from the value tape units. */
  datatype UnitsShuffle = UnitsShuffle(r: Redraw, units: seq<Unit>)

  /** After the row loop of `ShuffleDoors` has visited every row, starting from the snapshot
      of the old grid, every door is the draw of the later visit of its pair and is as the
      chance allows, and the grid is a redraw of the old one. */
  twostate lemma UnitsShuffled(s: UnitsShuffle)
    requires s.r.orig == old(Snapshot(s.r.a)) && WellFormed(s.r.a) && GridRedrawnFrom(s.r.orig, s.r.a, s.r.chance)
    requires DrawnBefore(s.r.a, Visit(s.r.orig, true, s.r.a.Length0), UnitDraw(s.r.chance, s.units), (s.r.a.Length1, 0))
    ensures GridRedrawn(s.r.a, s.r.chance)
    ensures DoorsSettled(s.r.a, s.r.chance, s.r.a.Length1, 0)
    ensures forall i, j, e: Dir :: 0 <= i < s.r.a.Length0 && 0 <= j < s.r.a.Length1 && IsDoorState(old(s.r.a[i, j].walls[e])) ==>
      s.r.a[i, j].walls[e] == Drawn(s.r.chance, NextUnit(Skip(s.units, Visit(s.r.orig, true, s.r.a.Length0).LaterDraw((i, j), e))))
  {
    var a, chance, v := s.r.a, s.r.chance, Visit(s.r.orig, true, s.r.a.Length0);
    AllDrawn(a, chance, v, UnitDraw(chance, s.units));
    DrawnRowsSettled(a, chance, v, s.units, a.Length1);
    forall i, j, e: Dir | 0 <= i < a.Length0 && 0 <= j < a.Length1 && IsDoorState(old(a[i, j].walls[e]))
      ensures a[i, j].walls[e] == Drawn(chance, NextUnit(Skip(s.units, v.LaterDraw((i, j), e))))
    {
      assert (i, j) in AllCells(a);
    }
    RedrawnFromOld(s.r);
  }

  /** The end of row y in `ShuffleDoors`: the visits so far leave the doors as at the start
      of row y + 1, the doors of the rows up to y are as the chance allows, and the tape t
      left after the row's draws is the tape after the first y + 1 rows. */
  lemma RowDone(a: Grid, chance: real, v: Visit, units: seq<Unit>, y: int, drawn: nat, t: seq<Unit>)
    requires v.rowMajor && v.len == a.Length0 && 0 <= y < a.Length1
    requires WellFormed(a) && GridRedrawnFrom(v.orig, a, chance) && DrawnBefore(a, v, UnitDraw(chance, units), (y, v.len))
    requires drawn == v.LineDraws(y, v.len) && t == Skip(Skip(units, v.LinesDraws(y)), drawn)
    ensures DrawnBefore(a, v, UnitDraw(chance, units), (y + 1, 0)) && DoorsSettled(a, chance, y + 1, 0)
    ensures t == Skip(units, v.LinesDraws(y + 1))
  {
    LineDone(a, chance, v, UnitDraw(chance, units), y);
    DrawnRowsSettled(a, chance, v, units, y + 1);
    SkipMore(units, v.LinesDraws(y), drawn);
    v.LinesNext(y);
  }

  /** Doors as the visits before row y leave them, with the states drawn from the value
      tape, are as the chance allows in every row before y. */
  lemma DrawnRowsSettled(a: Grid, chance: real, v: Visit, units: seq<Unit>, y: int)
    requires v.rowMajor && GridRedrawnFrom(v.orig, a, chance) && DrawnBefore(a, v, UnitDraw(chance, units), (y, 0))
    ensures DoorsSettled(a, chance, y, 0)
  {
    forall i, j, e: Dir | 0 <= i < a.Length0 && 0 <= j < a.Length1 && j < y && IsDoorState(a[i, j].walls[e])
      ensures Settles(chance, a[i, j].walls[e])
    {
      assert Redrawn(chance, v.orig[(i, j)].walls[e], a[i, j].walls[e]);
      assert DrawnAt(a, v, UnitDraw(chance, units), (i, j), e, (y, 0));
    }
  }

  /** Every cell before column x of row y, in row order, has at most two blocked sides or one
      fewer than it started with. */
  twostate predicate BraidedBefore(a: Grid, y: int, x: int)
    reads a
  {
    forall i, j :: 0 <= i < a.Length0 && 0 <= j < a.Length1 && (j < y || (j == y && i < x)) ==>
      a[i, j].WallCount() <= Max(2, old(a[i, j].WallCount()) - 1)
  }
}
