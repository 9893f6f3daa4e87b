/**
 * Properties of a whole `W×H` cell array that both engines keep: the two sides of a shared
 * wall agree, the border is walled, passages, walks through unblocked walls, and the
 * facts about writing one shared wall that `CarvePath` relies on.
 */
module MazeGrid {
  import opened MazeCells

  /** The cell array `mCells[x, y]`: x runs over the width (dimension 0), y over the height. */
  type Grid = array2<CellData>

  type Pos = (int, int)

  /** The cell one step away from p in direction d. */
  function Step(p: Pos, d: Dir): Pos
  {
    (p.0 + XDelta[d], p.1 + YDelta[d])
  }

  /** `IsInMaze`. */
  predicate InBounds(a: Grid, p: Pos)
  {
    0 <= p.0 < a.Length0 && 0 <= p.1 < a.Length1
  }

  /** `CellInDir`: the neighbouring cell in direction d, or nothing at the edge of the grid. */
  function CellInDir(a: Grid, p: Pos, d: Dir): (r: Option<CellData>)
    reads a
    ensures r.Some? <==> InBounds(a, Step(p, d))
    ensures r.Some? ==> r.value == a[Step(p, d).0, Step(p, d).1]
  {
    var n := Step(p, d);
    if 0 <= n.0 < a.Length0 && 0 <= n.1 < a.Length1 then Some(a[n.0, n.1]) else None
  }

  /** The wall on side d of the cell at p. */
  function WallAt(a: Grid, p: Pos, d: Dir): WallState
    reads a
    requires InBounds(a, p)
  {
    a[p.0, p.1].walls[d]
  }

  /** Stepping there and back again. */
  lemma StepBack(p: Pos, d: Dir)
    ensures Step(Step(p, d), Opposite(d)) == p
    ensures Opposite(d) != d
  {
  }

  /** Two different directions lead from one cell to two different cells. */
  lemma StepInjective(p: Pos, d: Dir, e: Dir)
    requires Step(p, d) == Step(p, e)
    ensures d == e
  {
    DeltasDistinct(d, e);
  }

  /** Both sides of the wall between p and its neighbour in direction d agree. */
  ghost predicate SymmetricAt(a: Grid, p: Pos, d: Dir)
    reads a
  {
    InBounds(a, p) && InBounds(a, Step(p, d)) ==> WallAt(a, p, d) == WallAt(a, Step(p, d), Opposite(d))
  }

  /** The shared-wall symmetry that `ValidateMazeState` asserts. */
  ghost predicate Symmetric(a: Grid)
    reads a
  {
    forall p: Pos, d: Dir :: SymmetricAt(a, p, d)
  }

  /** A side of a cell that faces out of the array is a Wall. */
  ghost predicate BorderAt(a: Grid, p: Pos, d: Dir)
    reads a
  {
    InBounds(a, p) && !InBounds(a, Step(p, d)) ==> WallAt(a, p, d) == Wall
  }

  ghost predicate BorderWalled(a: Grid)
    reads a
  {
    forall p: Pos, d: Dir :: BorderAt(a, p, d)
  }

  /** The state every generated maze is kept in. */
  ghost predicate WellFormed(a: Grid)
    reads a
  {
    Symmetric(a) && BorderWalled(a)
  }

  /** Every wall is a plain Wall or Empty: no doors. */
  ghost predicate NoDoors(a: Grid)
    reads a
  {
    forall p: Pos, d: Dir :: InBounds(a, p) ==> WallAt(a, p, d) == Wall || WallAt(a, p, d) == Empty
  }

  /** An unblocked side of a cell of a well-formed grid leads to a cell of the grid. */
  lemma UnblockedStaysInside(a: Grid, p: Pos, d: Dir)
    requires BorderWalled(a) && InBounds(a, p) && !Blocked(WallAt(a, p, d))
    ensures InBounds(a, Step(p, d))
  {
    assert BorderAt(a, p, d);
  }

  // ---------------------------------------------------------------------------------------
  // Writing a shared wall
  // ---------------------------------------------------------------------------------------

  /** One write of state s on side d of the cell at p and on the facing side of its
      neighbour, in grid a. */
  datatype WallWrite = WallWrite(a: Grid, p: Pos, d: Dir, s: WallState)
  {
    function Next(): Pos { Step(p, d) }
  }

  /** The grid now holds the old grid with the write applied, and nothing else changed. */
  twostate predicate SharedWallWritten(w: WallWrite)
    reads w.a
  {
    var a, p, n := w.a, w.p, w.Next();
    InBounds(a, p) && InBounds(a, n) &&
    a[p.0, p.1] == CellData(old(a[p.0, p.1]).walls[w.d := w.s]) &&
    a[n.0, n.1] == CellData(old(a[n.0, n.1]).walls[Opposite(w.d) := w.s]) &&
    forall i, j :: 0 <= i < a.Length0 && 0 <= j < a.Length1 && (i, j) != p && (i, j) != n ==>
      a[i, j] == old(a[i, j])
  }

  /** Writing the same state on both sides of a shared wall keeps the grid symmetric. */
  twostate lemma SharedWallKeepsSymmetry(w: WallWrite)
    requires old(Symmetric(w.a))
    requires SharedWallWritten(w)
    ensures Symmetric(w.a)
  {
    var a, p, d := w.a, w.p, w.d;
    var n := Step(p, d);
    StepBack(p, d);
    forall q: Pos, e: Dir ensures SymmetricAt(a, q, e) {
      assert old(SymmetricAt(a, (q.0, q.1), e));
      var m := Step(q, e);
      if InBounds(a, q) && InBounds(a, m) {
        StepBack(q, e);
        if q == p && e == d {
        } else if q == n && e == Opposite(d) {
          OppositeInvolution(d);
        } else {
          // the two sides of this wall are not the ones written
          OppositeInvolution(e);
          OppositeInvolution(d);
        }
      }
    }
  }

  /** Writing a shared wall between two cells of the grid keeps every border side. */
  twostate lemma SharedWallKeepsBorder(w: WallWrite)
    requires old(BorderWalled(w.a))
    requires SharedWallWritten(w)
    ensures BorderWalled(w.a)
  {
    var a, p, d := w.a, w.p, w.d;
    var n := Step(p, d);
    StepBack(p, d);
    forall q: Pos, e: Dir ensures BorderAt(a, q, e) {
      assert old(BorderAt(a, (q.0, q.1), e));
      if InBounds(a, q) && !InBounds(a, Step(q, e)) {
        if q == p { assert e != d; }
        if q == n { assert e != Opposite(d); }
      }
    }
  }

  // ---------------------------------------------------------------------------------------
  // Cells, passages and walks
  // ---------------------------------------------------------------------------------------

  /** Every position of the grid. */
  ghost function AllCells(a: Grid): set<Pos>
  {
    set x, y | 0 <= x < a.Length0 && 0 <= y < a.Length1 :: (x, y)
  }

  /** The grid has W·H cells. */
  lemma AllCellsCount(a: Grid)
    ensures |AllCells(a)| == a.Length0 * a.Length1
  {
    RectangleCount(a.Length0, a.Length1);
    assert AllCells(a) == Rectangle(a.Length0, a.Length1);
  }

  ghost function Rectangle(w: nat, h: nat): set<Pos>
  {
    set x, y | 0 <= x < w && 0 <= y < h :: (x, y)
  }

  lemma {:induction false} RectangleCount(w: nat, h: nat)
    ensures |Rectangle(w, h)| == w * h
  {
    if w > 0 {
      RectangleCount(w - 1, h);
      RectangleSplit(w, h);
      ColumnCount(w - 1, h);
      assert (w - 1) * h + h == w * h;
    } else {
      assert Rectangle(w, h) == {};
    }
  }

  ghost function Column(x: int, h: nat): set<Pos>
  {
    set y | 0 <= y < h :: (x, y)
  }

  /** A rectangle is the narrower one and its last column, which do not overlap. */
  lemma RectangleSplit(w: nat, h: nat)
    requires w > 0
    ensures Rectangle(w, h) == Rectangle(w - 1, h) + Column(w - 1, h)
    ensures Rectangle(w - 1, h) * Column(w - 1, h) == {}
  {
    forall p | p in Rectangle(w, h) ensures p in Rectangle(w - 1, h) + Column(w - 1, h) {
      if p.0 < w - 1 {
        assert p in Rectangle(w - 1, h);
      } else {
        assert p in Column(w - 1, h);
      }
    }
    forall p | p in Rectangle(w - 1, h) + Column(w - 1, h) ensures p in Rectangle(w, h) {
      assert 0 <= p.0 < w && 0 <= p.1 < h;
    }
  }

  lemma {:induction false} ColumnCount(x: int, h: nat)
    ensures |Column(x, h)| == h
  {
    if h > 0 {
      ColumnCount(x, h - 1);
      assert Column(x, h) == Column(x, h - 1) + {(x, h - 1)};
    } else {
      assert Column(x, h) == {};
    }
  }

  /** A shared wall, named once: by the cell on its west or north side. */
  function Edge(p: Pos, d: Dir): (Pos, Dir)
  {
    if d == East || d == South then (p, d) else (Step(p, d), Opposite(d))
  }

  /** The open shared walls of the grid: the passages of the maze. */
  ghost function Passages(a: Grid): set<(Pos, Dir)>
    reads a
  {
    set x, y, d: Dir | 0 <= x < a.Length0 && 0 <= y < a.Length1 && (d == East || d == South) &&
        InBounds(a, Step((x, y), d)) && !Blocked(a[x, y].walls[d]) :: ((x, y), d)
  }

  /** Opening a blocked shared wall of a symmetric grid adds exactly that passage. */
  twostate lemma OpeningAddsPassage(w: WallWrite)
    requires old(Symmetric(w.a))
    requires SharedWallWritten(w)
    requires old(Blocked(WallAt(w.a, w.p, w.d))) && !Blocked(w.s)
    ensures Edge(w.p, w.d) !in old(Passages(w.a))
    ensures Passages(w.a) == old(Passages(w.a)) + {Edge(w.p, w.d)}
  {
    var a, p, d := w.a, w.p, w.d;
    var n := Step(p, d);
    StepBack(p, d);
    OppositeInvolution(d);
    assert old(SymmetricAt(a, (p.0, p.1), d));
    forall t | t in Passages(a) ensures t in old(Passages(a)) || t == Edge(p, d) {
      var q, e := t.0, t.1;
      if t != Edge(p, d) {
        if q == p { assert e != d; }
        if q == n { assert e != Opposite(d); }
      }
    }
    forall t | t in old(Passages(a)) ensures t in Passages(a) {
      var q, e := t.0, t.1;
      if q == p { assert e != d; }
      if q == n { assert e != Opposite(d); }
    }
  }

  /** A walk: starting at p, each direction crosses an unblocked wall of a grid cell, and
      the last step lands on q. */
  ghost predicate IsWalk(a: Grid, p: Pos, path: seq<Dir>, q: Pos)
    reads a
    decreases |path|
  {
    if path == [] then p == q
    else InBounds(a, p) && !Blocked(WallAt(a, p, path[0])) && IsWalk(a, Step(p, path[0]), path[1..], q)
  }

  /** There is a walk from p to q. */
  ghost predicate Reachable(a: Grid, p: Pos, q: Pos)
    reads a
  {
    exists path: seq<Dir> :: IsWalk(a, p, path, q)
  }

  // ---------------------------------------------------------------------------------------
  // Recursive backtracking
  // ---------------------------------------------------------------------------------------

  /** The cells outside `visited` are still fully walled. */
  ghost predicate WalledOutside(a: Grid, visited: set<Pos>)
    reads a
  {
    forall p :: p in AllCells(a) && p !in visited ==> a[p.0, p.1].IsFullyWalled()
  }

  /** Once a passage exists, no visited cell is fully walled. */
  ghost predicate OpenInside(a: Grid, visited: set<Pos>)
    reads a
    requires visited <= AllCells(a)
  {
    |visited| > 1 ==> forall p :: p in visited ==> !a[p.0, p.1].IsFullyWalled()
  }

  /** The cells reached from `start` so far, each with the rank at which it was reached and,
      except `start`, the side `via` behind which its parent lies. */
  datatype Tree = Tree(start: Pos, visited: set<Pos>, rank: map<Pos, nat>, via: map<Pos, Dir>)
  {
    /** The tree with p's neighbour in direction d added as a child of p. */
    function Grow(p: Pos, d: Dir): Tree
    {
      var n := Step(p, d);
      Tree(start, visited + {n}, rank[n := |visited|], via[n := Opposite(d)])
    }
  }

  /** The visiting order: every visited cell has a rank below the number of visited cells. */
  ghost predicate Ranked(t: Tree)
  {
    forall p :: p in t.visited ==> p in t.rank && t.rank[p] < |t.visited|
  }

  /** Every visited cell other than `start` has a visited parent of lower rank behind an
      open side `via`. */
  ghost predicate Parented(a: Grid, t: Tree)
    reads a
    requires t.visited <= AllCells(a) && Ranked(t)
  {
    forall p :: p in t.visited && p != t.start ==>
      p in t.via && Step(p, t.via[p]) in t.visited && t.rank[Step(p, t.via[p])] < t.rank[p] &&
      !Blocked(WallAt(a, p, t.via[p]))
  }

  /** What holds while passages are carved from `start`: the cells outside `visited` are still
      fully walled and, once a passage exists, those in it are not; there is one passage fewer
      than visited cells; and every visited cell other than `start` has a parent reached earlier
      behind an open side. */
  ghost predicate Carving(a: Grid, t: Tree)
    reads a
  {
    WellFormed(a) && NoDoors(a) &&
    t.start in t.visited && t.visited <= AllCells(a) &&
    WalledOutside(a, t.visited) && OpenInside(a, t.visited) &&
    |Passages(a)| + 1 == |t.visited| &&
    Ranked(t) && Parented(a, t)
  }

  lemma TwoElements<T>(s: set<T>, x: T, y: T)
    requires x in s && y in s && x != y
    ensures |s| > 1
  {
    assert {x, y} <= s;
    assert |{x, y}| == 2;
    SubsetSize({x, y}, s);
  }

  lemma SubsetSize<T>(a: set<T>, b: set<T>)
    requires a <= b
    ensures |a| <= |b|
  {
    assert b == a + (b - a);
  }

  /** One carving step: the tree and the write that opens the wall from `w.p` towards `w.d`. */
  datatype CarveMove = CarveMove(w: WallWrite, t: Tree)

  twostate lemma CarveKeepsNoDoors(w: WallWrite)
    requires old(NoDoors(w.a)) && SharedWallWritten(w) && w.s == Empty
    ensures NoDoors(w.a)
  {
    var a := w.a;
    forall q: Pos, e: Dir | InBounds(a, q) ensures WallAt(a, q, e) == Wall || WallAt(a, q, e) == Empty {
      assert old(WallAt(a, (q.0, q.1), e)) == Wall || old(WallAt(a, (q.0, q.1), e)) == Empty;
    }
  }

  twostate lemma CarveKeepsWalledOutside(m: CarveMove)
    requires old(WalledOutside(m.w.a, m.t.visited)) && m.w.p in m.t.visited
    requires SharedWallWritten(m.w)
    ensures WalledOutside(m.w.a, m.t.visited + {m.w.Next()})
  {
    var a, visited := m.w.a, m.t.visited;
    forall q | q in AllCells(a) && q !in visited + {m.w.Next()} ensures a[q.0, q.1].IsFullyWalled() {
      assert old(a[q.0, q.1].IsFullyWalled());
    }
  }

  twostate lemma CarveKeepsOpenInside(m: CarveMove)
    requires m.t.visited <= AllCells(m.w.a) && m.w.p in m.t.visited
    requires old(OpenInside(m.w.a, m.t.visited))
    requires SharedWallWritten(m.w) && m.w.s == Empty
    ensures OpenInside(m.w.a, m.t.visited + {m.w.Next()})
  {
    var a, p, d, visited := m.w.a, m.w.p, m.w.d, m.t.visited;
    var n := Step(p, d);
    forall q | q in visited + {n} ensures !a[q.0, q.1].IsFullyWalled() {
      if q == p {
        assert !TestWallState(a[q.0, q.1].walls[d], IsBlocked);
      } else if q == n {
        assert !TestWallState(a[q.0, q.1].walls[Opposite(d)], IsBlocked);
      } else {
        TwoElements(visited, p, q);
        assert old(!a[q.0, q.1].IsFullyWalled());
      }
    }
  }

  twostate lemma CarveKeepsParented(m: CarveMove)
    requires m.t.visited <= AllCells(m.w.a) && Ranked(m.t)
    requires old(Parented(m.w.a, m.t))
    requires m.w.p in m.t.visited && m.w.Next() !in m.t.visited
    requires SharedWallWritten(m.w) && m.w.s == Empty
    ensures Ranked(m.t.Grow(m.w.p, m.w.d))
    ensures Parented(m.w.a, m.t.Grow(m.w.p, m.w.d))
  {
    var a, p, d, t := m.w.a, m.w.p, m.w.d, m.t;
    var n := Step(p, d);
    StepBack(p, d);
    var t' := t.Grow(p, d);
    assert |t'.visited| == |t.visited| + 1;
    forall q | q in t'.visited && q != t.start
      ensures q in t'.via && Step(q, t'.via[q]) in t'.visited && t'.rank[Step(q, t'.via[q])] < t'.rank[q]
      ensures !Blocked(WallAt(a, q, t'.via[q]))
    {
      if q != n {
        assert old(!Blocked(WallAt(a, (q.0, q.1), t.via[q])));
      }
    }
  }

  /** Carving from a visited cell into a fully walled neighbour keeps `Carving`, with the
      neighbour added as a child of the cell. */
  twostate lemma CarveStep(m: CarveMove)
    requires old(Carving(m.w.a, m.t))
    requires m.w.s == Empty && m.w.p in m.t.visited && m.w.Next() !in m.t.visited
    requires SharedWallWritten(m.w)
    requires old(m.w.a[m.w.Next().0, m.w.Next().1].IsFullyWalled())
    ensures Carving(m.w.a, m.t.Grow(m.w.p, m.w.d))
  {
    var a, p, d := m.w.a, m.w.p, m.w.d;
    var n := Step(p, d);
    assert old(SymmetricAt(a, (p.0, p.1), d));
    assert old(Blocked(WallAt(a, p, d)));
    SharedWallKeepsSymmetry(m.w);
    SharedWallKeepsBorder(m.w);
    OpeningAddsPassage(m.w);
    CarveKeepsNoDoors(m.w);
    CarveKeepsWalledOutside(m);
    CarveKeepsOpenInside(m);
    CarveKeepsParented(m);
    assert |m.t.visited + {n}| == |m.t.visited| + 1;
  }

  /** Every visited cell of a carving tree has a walk back to the start, found by following
      the parents, whose ranks decrease. */
  lemma {:induction false} WalkToStart(a: Grid, t: Tree, p: Pos) returns (path: seq<Dir>)
    requires t.start in t.visited && t.visited <= AllCells(a) && Ranked(t) && Parented(a, t)
    requires p in t.visited
    ensures IsWalk(a, p, path, t.start)
    decreases t.rank[p]
  {
    if p == t.start {
      path := [];
    } else {
      var d := t.via[p];
      var q := Step(p, d);
      var rest := WalkToStart(a, t, q);
      path := [d] + rest;
      assert path[1..] == rest;
    }
  }

  /** A grid reset to all walls, with only the start visited, is where carving begins. */
  lemma CarvingStarts(a: Grid, start: Pos)
    requires InBounds(a, start)
    requires forall i, j :: 0 <= i < a.Length0 && 0 <= j < a.Length1 ==> a[i, j] == CellData([Wall, Wall, Wall, Wall])
    ensures Carving(a, Tree(start, {start}, map[start := 0], map[]))
  {
    assert Passages(a) == {};
  }

  /** A fully walled neighbour of a visited cell has not been visited, and the wall towards
      it is blocked. */
  lemma WalledNeighbourIsNew(a: Grid, t: Tree, p: Pos, d: Dir)
    requires Carving(a, t) && p in t.visited && InBounds(a, Step(p, d))
    requires a[Step(p, d).0, Step(p, d).1].IsFullyWalled()
    ensures Step(p, d) !in t.visited
    ensures Blocked(WallAt(a, p, d))
  {
    var n := Step(p, d);
    StepBack(p, d);
    assert SymmetricAt(a, p, d);
    assert Blocked(WallAt(a, n, Opposite(d)));
    if n in t.visited {
      TwoElements(t.visited, p, n);
    }
  }

  /** Adding a new cell of the grid to the visited set leaves fewer cells unvisited. */
  lemma FewerUnvisited(a: Grid, before: set<Pos>, now: set<Pos>, n: Pos)
    requires before <= now <= AllCells(a) && n in AllCells(a) && n !in now
    ensures |AllCells(a) - (now + {n})| < |AllCells(a) - before|
  {
    var rest, open := AllCells(a) - (now + {n}), AllCells(a) - before;
    assert rest + {n} <= open;
    assert |rest + {n}| == |rest| + 1;
    SubsetSize(rest + {n}, open);
  }

  // ---------------------------------------------------------------------------------------
  // Blocked counts and doors under a shared-wall write
  // ---------------------------------------------------------------------------------------

  function Max(a: int, b: int): int { if a < b then b else a }

  /** Every cell's blocked count is at most what it was. */
  twostate predicate CountsNoHigher(a: Grid)
    reads a
  {
    forall i, j :: 0 <= i < a.Length0 && 0 <= j < a.Length1 ==> a[i, j].WallCount() <= old(a[i, j].WallCount())
  }

  /** Opening a blocked shared wall lowers the blocked count of the cell by one and changes no
      other count except the neighbour's, which also goes down. */
  twostate lemma OpeningLowersCounts(w: WallWrite)
    requires SharedWallWritten(w) && old(Blocked(WallAt(w.a, w.p, w.d))) && old(Symmetric(w.a)) && !Blocked(w.s)
    ensures CountsNoHigher(w.a)
    ensures w.a[w.p.0, w.p.1].WallCount() + 1 == old(w.a[w.p.0, w.p.1].WallCount())
  {
    var a, p, d, n := w.a, w.p, w.d, w.Next();
    StepBack(p, d);
    assert old(SymmetricAt(a, (p.0, p.1), d));
    CountBlockedUpdate(old(a[p.0, p.1]).walls, d as int, w.s);
    CountBlockedUpdate(old(a[n.0, n.1]).walls, Opposite(d) as int, w.s);
  }

  /** The wall is a door, open or closed. */
  predicate IsDoorState(s: WallState)
  {
    s == WallState.OpenDoor || s == ClosedDoor
  }

  /** What a door redrawn against a chance can end as: a chance of at most 0 always opens
      it and a chance above 1 always closes it. */
  predicate Settles(chance: real, s: WallState)
  {
    (chance <= 0.0 ==> s == WallState.OpenDoor) && (chance > 1.0 ==> s == ClosedDoor)
  }

  /** One wall before and after its doors are redrawn: it holds a door exactly when it did, a
      wall without a door is untouched, and a changed door ends as the chance allows. */
  predicate Redrawn(chance: real, before: WallState, after: WallState)
  {
    (IsDoorState(after) <==> IsDoorState(before)) &&
    (!IsDoorState(before) ==> after == before) &&
    (after != before ==> Settles(chance, after))
  }

  lemma RedrawnTransitive(chance: real, a: WallState, b: WallState, c: WallState)
    requires Redrawn(chance, a, b) && Redrawn(chance, b, c)
    ensures Redrawn(chance, a, c)
  {
  }

  /** Every wall of the grid has been redrawn against the chance. */
  twostate predicate GridRedrawn(a: Grid, chance: real)
    reads a
  {
    forall i, j, e: Dir :: 0 <= i < a.Length0 && 0 <= j < a.Length1 ==>
      Redrawn(chance, old(a[i, j].walls[e]), a[i, j].walls[e])
  }

  /** The cells of the grid, by position. */
  ghost function Snapshot(a: Grid): map<Pos, CellData>
    reads a
  {
    map p | p in AllCells(a) :: a[p.0, p.1]
  }

  /** Every wall of the grid has been redrawn against the chance since the cells were orig. */
  ghost predicate GridRedrawnFrom(orig: map<Pos, CellData>, a: Grid, chance: real)
    reads a
  {
    (forall i, j :: 0 <= i < a.Length0 && 0 <= j < a.Length1 ==> (i, j) in orig) &&
    forall i, j, e: Dir :: 0 <= i < a.Length0 && 0 <= j < a.Length1 && (i, j) in orig ==>
      Redrawn(chance, orig[(i, j)].walls[e], a[i, j].walls[e])
  }

  /** A redraw of grid a against chance, counted from the cells orig. */
  datatype Redraw = Redraw(a: Grid, chance: real, orig: map<Pos, CellData>)

  /** Nothing redrawn yet: the grid is redrawn from its own snapshot. */
  lemma RedrawnFromSnapshot(a: Grid, chance: real)
    ensures GridRedrawnFrom(Snapshot(a), a, chance)
  {
    forall i, j | 0 <= i < a.Length0 && 0 <= j < a.Length1 ensures (i, j) in Snapshot(a) {
      assert (i, j) in AllCells(a);
    }
  }

  /** A redraw since orig followed by one more redraw is a redraw since orig. */
  twostate lemma RedrawnFromChain(k: Redraw)
    requires old(GridRedrawnFrom(k.orig, k.a, k.chance)) && GridRedrawn(k.a, k.chance)
    ensures GridRedrawnFrom(k.orig, k.a, k.chance)
  {
    forall i, j, e: Dir | 0 <= i < k.a.Length0 && 0 <= j < k.a.Length1
      ensures (i, j) in k.orig && Redrawn(k.chance, k.orig[(i, j)].walls[e], k.a[i, j].walls[e])
    {
      RedrawnTransitive(k.chance, k.orig[(i, j)].walls[e], old(k.a[i, j].walls[e]), k.a[i, j].walls[e]);
    }
  }

  /** A redraw since the snapshot of the old grid is a redraw of the old grid. */
  twostate lemma RedrawnFromOld(k: Redraw)
    requires k.orig == old(Snapshot(k.a)) && GridRedrawnFrom(k.orig, k.a, k.chance)
    ensures GridRedrawn(k.a, k.chance)
  {
    forall i, j, e: Dir | 0 <= i < k.a.Length0 && 0 <= j < k.a.Length1
      ensures Redrawn(k.chance, old(k.a[i, j].walls[e]), k.a[i, j].walls[e])
    {
      assert (i, j) in AllCells(k.a);
      assert k.orig[(i, j)] == old(k.a[i, j]);
    }
  }

  /** A write within a redraw that turns doors into the state s. */
  datatype DoorWrite = DoorWrite(r: Redraw, s: WallState)

  /** A write that leaves every wall as it was or turns a door into the state s, with s as
      the chance allows, continues a redraw since orig. */
  twostate lemma DoorWriteRedrawn(w: DoorWrite)
    requires IsDoorState(w.s) && Settles(w.r.chance, w.s)
    requires old(GridRedrawnFrom(w.r.orig, w.r.a, w.r.chance))
    requires forall i, j, e: Dir :: 0 <= i < w.r.a.Length0 && 0 <= j < w.r.a.Length1 ==>
      w.r.a[i, j].walls[e] == old(w.r.a[i, j].walls[e]) || (IsDoorState(old(w.r.a[i, j].walls[e])) && w.r.a[i, j].walls[e] == w.s)
    ensures GridRedrawnFrom(w.r.orig, w.r.a, w.r.chance)
  {
    var k := w.r;
    forall i, j, e: Dir | 0 <= i < k.a.Length0 && 0 <= j < k.a.Length1
      ensures Redrawn(k.chance, k.orig[(i, j)].walls[e], k.a[i, j].walls[e])
    {
      RedrawnTransitive(k.chance, k.orig[(i, j)].walls[e], old(k.a[i, j].walls[e]), k.a[i, j].walls[e]);
    }
  }



  /** Every door of a cell before column x of row y, in row order, is as the chance allows. */
  ghost predicate DoorsSettled(a: Grid, chance: real, y: int, x: int)
    reads a
  {
    forall i, j, e: Dir ::
      0 <= i < a.Length0 && 0 <= j < a.Length1 && (j < y || (j == y && i < x)) && IsDoorState(a[i, j].walls[e]) ==>
        Settles(chance, a[i, j].walls[e])
  }

  /** A side of a cell of a well-formed grid that holds a door leads into the grid, and the
      neighbour's facing side holds a door too. */
  lemma DoorHasNeighbour(a: Grid, p: Pos, d: Dir)
    requires WellFormed(a) && InBounds(a, p) && IsDoorState(WallAt(a, p, d))
    ensures InBounds(a, Step(p, d))
    ensures IsDoorState(WallAt(a, Step(p, d), Opposite(d)))
  {
    assert BorderAt(a, p, d);
    assert SymmetricAt(a, p, d);
  }

  /** In a grid at least two cells wide and two high, a cell with three or more blocked
      sides has a blocked side that leads into the grid. */
  lemma BlockedSideInside(a: Grid, p: Pos)
    requires a.Length0 >= 2 && a.Length1 >= 2 && InBounds(a, p)
    requires a[p.0, p.1].WallCount() >= 3
    ensures exists d: Dir :: InBounds(a, Step(p, d)) && Blocked(WallAt(a, p, d))
  {
    var h: Dir := if p.0 > 0 then West else East;
    var v: Dir := if p.1 > 0 then North else South;
    assert InBounds(a, Step(p, h)) && InBounds(a, Step(p, v));
    if !Blocked(WallAt(a, p, h)) && !Blocked(WallAt(a, p, v)) {
      TwoOpenSides(a[p.0, p.1], h, v);
    }
  }

  // ---------------------------------------------------------------------------------------
  // What `ValidateMazeState` checks
  // ---------------------------------------------------------------------------------------

  /** What `ValidateMazeState` asserts for side d of cell p: when p has a neighbour there,
      both sides of their wall agree and p is not fully walled. */
  predicate CheckedAt(a: Grid, p: Pos, d: Dir)
    reads a
    requires InBounds(a, p)
  {
    var n := Step(p, d);
    InBounds(a, n) ==>
      a[p.0, p.1].GetWallState(d) == a[n.0, n.1].GetWallState(Opposite(d)) && a[p.0, p.1].WallCount() != 4
  }

  /** Every check of `ValidateMazeState` passes. */
  ghost predicate MazeStateValid(a: Grid)
    reads a
  {
    forall p: Pos, d: Dir :: InBounds(a, p) ==> CheckedAt(a, p, d)
  }

  /** No cell with a neighbour is fully walled. */
  ghost predicate NoWalledIn(a: Grid)
    reads a
  {
    forall p: Pos, d: Dir :: InBounds(a, p) && InBounds(a, Step(p, d)) ==> !a[p.0, p.1].IsFullyWalled()
  }

  /** `ValidateMazeState` passes exactly on a symmetric maze in which no cell that has a
      neighbour is fully walled. */
  lemma ValidStateMeaning(a: Grid)
    ensures MazeStateValid(a) <==> Symmetric(a) && NoWalledIn(a)
  {
    if MazeStateValid(a) {
      forall p: Pos, d: Dir ensures SymmetricAt(a, p, d) {
        if InBounds(a, p) { assert CheckedAt(a, p, d); }
      }
      forall p: Pos, d: Dir | InBounds(a, p) && InBounds(a, Step(p, d)) ensures !a[p.0, p.1].IsFullyWalled() {
        assert CheckedAt(a, p, d);
      }
    }
    if Symmetric(a) && NoWalledIn(a) {
      forall p: Pos, d: Dir | InBounds(a, p) ensures CheckedAt(a, p, d) {
        assert SymmetricAt(a, p, d);
      }
    }
  }

  /** A valid maze whose cells have at most three blocked sides, as `Braid` leaves it,
      passes `ValidateMazeState`. */
  lemma ValidAfterBraid(a: Grid)
    requires WellFormed(a)
    requires forall i, j :: 0 <= i < a.Length0 && 0 <= j < a.Length1 ==> a[i, j].WallCount() <= 3
    ensures MazeStateValid(a)
  {
    ValidStateMeaning(a);
  }

  /** A carving tree that reached every cell of a maze with at least two cells leaves a maze
      that passes `ValidateMazeState`. */
  lemma ValidAfterFullCarving(a: Grid, t: Tree)
    requires Carving(a, t) && t.visited == AllCells(a) && |AllCells(a)| > 1
    ensures MazeStateValid(a)
  {
    forall p: Pos, d: Dir | InBounds(a, p) && InBounds(a, Step(p, d)) ensures !a[p.0, p.1].IsFullyWalled() {
      assert p in AllCells(a);
    }
    ValidStateMeaning(a);
  }

  /** The number of sides of c before d that hold a door: the draws `ShuffleDoors` makes
      for the cell before it reaches side d. */
  function DoorsBefore(c: CellData, d: Direction): (n: nat)
    ensures n <= d as int
  {
    if d == North then 0 else DoorsBefore(c, d - 1) + (if IsDoorState(c.walls[d - 1]) then 1 else 0)
  }

  /** What `Generate` leaves: every reached cell has a walk to the start, the passages are
      one fewer than the reached cells, and every cell off the tree is fully walled. */
  lemma GeneratedTree(a: Grid, t: Tree, p: Pos)
    requires Carving(a, t) && p in t.visited
    ensures Reachable(a, p, t.start)
    ensures |Passages(a)| + 1 == |t.visited|
    ensures forall q :: q in AllCells(a) && q !in t.visited ==> a[q.0, q.1].IsFullyWalled()
  {
    var path := WalkToStart(a, t, p);
  }
}
