/**
 * Which draw of the random tape decides each door when `ShuffleDoors` visits the cells in
 * order (row by row in the C# `MazeData`, column by column in the C++ `BaseMaze`). Each side
 * of the visited cell that holds a door takes the next draw, in direction order, and sets
 * both sides of that door by it. A door is therefore visited twice, once from each of its
 * cells, and ends as the draw made at the later of the two visits.
 */
module DoorDraws {
  import opened MazeCells
  import opened MazeGrid

  /** Place k comes before place m: an earlier line, or the same line and an earlier index. */
  predicate Earlier(k: (int, int), m: (int, int))
  {
    k.0 < m.0 || (k.0 == m.0 && k.1 < m.1)
  }

  /** The visit order of a shuffle of the cells orig. Row by row, a line is a row and the
      index of a cell in it is its column; column by column it is the other way round. Every
      line holds len cells. */
  datatype Visit = Visit(orig: map<Pos, CellData>, rowMajor: bool, len: int)
  {
    /** The place of cell p in the order: its line, then its index in the line. */
    function Key(p: Pos): (int, int)
    {
      if rowMajor then (p.1, p.0) else (p.0, p.1)
    }

    /** The place right after that of cell p. */
    function Next(p: Pos): (int, int)
    {
      (Key(p).0, Key(p).1 + 1)
    }

    /** Row by row, cell (x, y) is at index x of line y: the draws before it are those of the
        rows before y and of the cells before it in row y, and it adds its own to its row. */
    lemma RowPlace(x: int, y: int)
      requires rowMajor
      ensures Key((x, y)) == (y, x) && Next((x, y)) == (y, x + 1)
      ensures DrawsBefore((x, y)) == LinesDraws(y) + LineDraws(y, x)
      ensures x >= 0 ==> LineDraws(y, x + 1) == LineDraws(y, x) + CellDraws((x, y))
    {
    }

    /** Column by column, cell (x, y) is at index y of line x. */
    lemma ColumnPlace(x: int, y: int)
      requires !rowMajor
      ensures Key((x, y)) == (x, y) && Next((x, y)) == (x, y + 1)
      ensures DrawsBefore((x, y)) == LinesDraws(x) + LineDraws(x, y)
      ensures y >= 0 ==> LineDraws(x, y + 1) == LineDraws(x, y) + CellDraws((x, y))
    {
    }

    /** The draws of the first l + 1 lines: those of the first l and then those of line l. */
    lemma LinesNext(l: int)
      requires l >= 0
      ensures LinesDraws(l + 1) == LinesDraws(l) + LineDraws(l, len)
    {
    }

    /** The cell at index i of line l. */
    function At(l: int, i: int): Pos
    {
      if rowMajor then (i, l) else (l, i)
    }

    /** The draws made at cell p: one per side that holds a door. */
    ghost function CellDraws(p: Pos): nat
    {
      if p in orig then DoorsBefore(orig[p], Count) else 0
    }

    /** The draws made at the first i cells of line l. */
    ghost function LineDraws(l: int, i: int): nat
      decreases i
    {
      if i <= 0 then 0 else LineDraws(l, i - 1) + CellDraws(At(l, i - 1))
    }

    /** The draws made at the first l lines. */
    ghost function LinesDraws(l: int): nat
      decreases l
    {
      if l <= 0 then 0 else LinesDraws(l - 1) + LineDraws(l - 1, len)
    }

    /** The draws made before cell p is visited. */
    ghost function DrawsBefore(p: Pos): nat
    {
      LinesDraws(Key(p).0) + LineDraws(Key(p).0, Key(p).1)
    }

    /** The position on the tape of the draw taken at cell p for its side d. */
    ghost function DrawIndex(p: Pos, d: Direction): nat
    {
      DrawsBefore(p) + (if p in orig then DoorsBefore(orig[p], d) else 0)
    }

    /** The draw that decides the door on side d of p: the one taken at whichever of p and
        its neighbour is visited later. */
    ghost function LaterDraw(p: Pos, d: Dir): nat
    {
      var n := Step(p, d);
      if Earlier(Key(p), Key(n)) then DrawIndex(n, Opposite(d)) else DrawIndex(p, d)
    }
  }

  /** The visit order runs over the lines of grid a. */
  predicate Fits(a: Grid, v: Visit)
  {
    v.len == if v.rowMajor then a.Length0 else a.Length1
  }

  /** The number of lines of grid a in the visit order. */
  function Lines(a: Grid, v: Visit): nat
  {
    if v.rowMajor then a.Length1 else a.Length0
  }

  /** The state of the door on side d of p once the cells before place k have been visited,
      with draw(i) the state the draw at position i of the tape sets: the draw of the later
      visited of p and its neighbour, or the state in orig while neither was visited. */
  ghost function StateBefore(v: Visit, draw: nat -> WallState, p: Pos, d: Dir, k: (int, int)): WallState
    requires p in v.orig
  {
    var n := Step(p, d);
    var pDone, nDone := Earlier(v.Key(p), k), Earlier(v.Key(n), k);
    if nDone && (!pDone || Earlier(v.Key(p), v.Key(n))) then draw(v.DrawIndex(n, Opposite(d)))
    else if pDone then draw(v.DrawIndex(p, d))
    else v.orig[p].walls[d]
  }

  /** Side e of cell p, when it holds a door in orig, is as the visits before place k have
      left it. */
  ghost predicate DrawnAt(a: Grid, v: Visit, draw: nat -> WallState, p: Pos, e: Dir, k: (int, int))
    reads a
  {
    InBounds(a, p) && p in v.orig && IsDoorState(v.orig[p].walls[e]) ==> WallAt(a, p, e) == StateBefore(v, draw, p, e, k)
  }

  /** Every door of orig is as the visits before place k have left it. */
  ghost predicate DrawnBefore(a: Grid, v: Visit, draw: nat -> WallState, k: (int, int))
    reads a
  {
    forall p: Pos, e: Dir :: DrawnAt(a, v, draw, p, e, k)
  }

  /** Two cells whose sides hold doors at the same places make the same draws. */
  lemma {:induction false} DoorsBeforeSame(c: CellData, o: CellData, d: Direction)
    requires forall e: Dir :: IsDoorState(c.walls[e]) <==> IsDoorState(o.walls[e])
    ensures DoorsBefore(c, d) == DoorsBefore(o, d)
  {
    if d != North {
      DoorsBeforeSame(c, o, d - 1);
    }
  }

  /** While the grid is redrawn since orig, each of its cells makes the draws it makes in
      orig. */
  lemma DrawsAsInOrig(a: Grid, chance: real, orig: map<Pos, CellData>, p: Pos)
    requires GridRedrawnFrom(orig, a, chance) && InBounds(a, p)
    ensures p in orig
    ensures forall d: Direction :: DoorsBefore(a[p.0, p.1], d) == DoorsBefore(orig[p], d)
  {
    forall d: Direction ensures DoorsBefore(a[p.0, p.1], d) == DoorsBefore(orig[p], d) {
      DoorsBeforeSame(a[p.0, p.1], orig[p], d);
    }
  }

  /** Before the first visit every door is as in orig. */
  lemma DrawnAtStart(a: Grid, v: Visit, draw: nat -> WallState)
    requires v.orig == Snapshot(a) && WellFormed(a)
    ensures DrawnBefore(a, v, draw, (0, 0))
  {
    forall p: Pos, e: Dir ensures DrawnAt(a, v, draw, p, e, (0, 0)) {
      if InBounds(a, p) && p in v.orig && IsDoorState(v.orig[p].walls[e]) {
        assert p in AllCells(a);
        DoorHasNeighbour(a, p, e);
      }
    }
  }

  /** The end of line l is the start of line l + 1: every door of a redrawn grid joins two
      cells inside it. */
  lemma LineDone(a: Grid, chance: real, v: Visit, draw: nat -> WallState, l: int)
    requires Fits(a, v) && WellFormed(a) && GridRedrawnFrom(v.orig, a, chance)
    requires DrawnBefore(a, v, draw, (l, v.len))
    ensures DrawnBefore(a, v, draw, (l + 1, 0))
  {
    var next := (l + 1, 0);
    forall p: Pos, e: Dir ensures DrawnAt(a, v, draw, p, e, next) {
      assert DrawnAt(a, v, draw, p, e, (l, v.len));
      if InBounds(a, p) && p in v.orig && IsDoorState(v.orig[p].walls[e]) {
        assert Redrawn(chance, v.orig[p].walls[e], WallAt(a, p, e));
        DoorHasNeighbour(a, p, e);
        assert StateBefore(v, draw, p, e, (l, v.len)) == StateBefore(v, draw, p, e, next);
      }
    }
  }

  /** Once every line is visited, each door of orig is set by its later draw. */
  lemma AllDrawn(a: Grid, chance: real, v: Visit, draw: nat -> WallState)
    requires Fits(a, v) && WellFormed(a) && GridRedrawnFrom(v.orig, a, chance)
    requires DrawnBefore(a, v, draw, (Lines(a, v), 0))
    ensures forall i, j, e: Dir :: 0 <= i < a.Length0 && 0 <= j < a.Length1 && IsDoorState(v.orig[(i, j)].walls[e]) ==>
      a[i, j].walls[e] == draw(v.LaterDraw((i, j), e))
  {
    forall i, j, e: Dir | 0 <= i < a.Length0 && 0 <= j < a.Length1 && IsDoorState(v.orig[(i, j)].walls[e])
      ensures a[i, j].walls[e] == draw(v.LaterDraw((i, j), e))
    {
      assert DrawnAt(a, v, draw, (i, j), e, (Lines(a, v), 0));
      assert Redrawn(chance, v.orig[(i, j)].walls[e], a[i, j].walls[e]);
      DoorHasNeighbour(a, (i, j), e);
    }
  }

  /** How the visit to cell c changes the state of the door on side e of p: a door of c
      takes c's own draw, a door facing c takes c's draw for the facing side, and every other
      door keeps its state. */
  lemma StateStep(v: Visit, draw: nat -> WallState, p: Pos, e: Dir, c: Pos)
    requires p in v.orig
    ensures p == c ==> StateBefore(v, draw, p, e, v.Next(c)) == draw(v.DrawIndex(c, e))
    ensures Step(p, e) == c ==> StateBefore(v, draw, p, e, v.Next(c)) == draw(v.DrawIndex(c, Opposite(e)))
    ensures p != c && Step(p, e) != c ==> StateBefore(v, draw, p, e, v.Next(c)) == StateBefore(v, draw, p, e, v.Key(c))
  {
    StepBack(p, e);
  }

  /** No wall has changed except those of the cell c and those facing it. */
  twostate predicate OnlyAround(a: Grid, c: Pos)
    reads a
  {
    forall i, j, e: Dir :: 0 <= i < a.Length0 && 0 <= j < a.Length1 && (i, j) != c && Step((i, j), e) != c ==>
      a[i, j].walls[e] == old(a[i, j].walls[e])
  }

  /** The visit to cell c within a shuffle of grid a against chance. */
  datatype CellDraw = CellDraw(a: Grid, chance: real, v: Visit, draw: nat -> WallState, c: Pos)

  /** What a visit to cell c keeps: before it the grid was redrawn since orig and the doors
      were as the visits before c leave them, both sides of every wall agree before and after
      it, and it changes no wall except those of c and those facing c. */
  twostate predicate CellVisit(k: CellDraw)
    reads k.a
  {
    InBounds(k.a, k.c) &&
    old(GridRedrawnFrom(k.v.orig, k.a, k.chance)) && old(Symmetric(k.a)) && Symmetric(k.a) &&
    old(DrawnBefore(k.a, k.v, k.draw, k.v.Key(k.c))) && OnlyAround(k.a, k.c)
  }

  /** Visiting cell c sets each of its doors, on both sides, by its own draw and changes no
      other wall: afterwards the doors are as the visits up to and including c leave them. */
  twostate lemma CellDrawn(k: CellDraw)
    requires CellVisit(k)
    requires forall e: Dir :: IsDoorState(old(k.a[k.c.0, k.c.1].walls[e])) ==>
      k.a[k.c.0, k.c.1].walls[e] == k.draw(k.v.DrawIndex(k.c, e))
    ensures DrawnBefore(k.a, k.v, k.draw, k.v.Next(k.c))
  {
    var a, v, c := k.a, k.v, k.c;
    var next := v.Next(c);
    forall p: Pos, e: Dir ensures DrawnAt(a, v, k.draw, p, e, next) {
      if InBounds(a, p) && p in v.orig && IsDoorState(v.orig[p].walls[e]) {
        assert old(DrawnAt(a, v, k.draw, p, e, v.Key(c)));
        StateStep(v, k.draw, p, e, c);
        assert old(Redrawn(k.chance, v.orig[p].walls[e], WallAt(a, p, e)));
        if Step(p, e) == c {
          assert old(SymmetricAt(a, p, e));
          assert SymmetricAt(a, p, e);
        }
      }
    }
  }
}
