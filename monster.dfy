/**
 * The `Monster` class of MazeData.cs: a position in a maze, the last move made, and how often
 * each cell has been left. It wanders towards a target, preferring the least visited
 * neighbour and turning back only when it must, and homes in along the path A* finds.
 */
module MazeMonster {
  import opened MazeCells
  import opened MazeGrid
  import opened RandomTape
  import opened MazeUtil
  import opened MazeData

  /** One entry of `possibilities`: a direction and the visit count of the cell it leads to. */
  datatype Candidate = Candidate(dir: Dir, visits: int)

  /** The index `possibilities.OrderBy(p => p.Item2).ElementAt(0)` picks: `OrderBy` is a
      stable sort, so it is the first candidate with the fewest visits. */
  function FirstLeast(poss: seq<Candidate>): (i: nat)
    requires poss != []
    ensures i < |poss|
    ensures forall j :: 0 <= j < |poss| ==> poss[i].visits <= poss[j].visits
    ensures forall j :: 0 <= j < i ==> poss[i].visits < poss[j].visits
  {
    if |poss| == 1 then 0
    else
      var k := FirstLeast(poss[1..]) + 1;
      if poss[0].visits <= poss[k].visits then 0 else k
  }

  /** The directions and the excluded one `Candidates` is asked about. */
  datatype Pick = Pick(order: seq<Dir>, exclude: Direction)

  class Monster {
    const maze: Maze
    var x: int
    var y: int
    /** `mLastMove`: `Count` until the first move. */
    var lastMove: Direction
    /** `mVisitedCount`: how often the monster has left each cell. */
    const visited: array2<int>

    /** The maze is well formed, the counts cover it, and the monster stands inside it. */
    ghost predicate Valid()
      reads this, maze, maze.cells
    {
      maze.Valid() && Placed()
    }

    /** The counts cover the maze and the monster stands inside it. */
    predicate Placed()
      reads this, maze
    {
      visited.Length0 == maze.Width() && visited.Length1 == maze.Height() && maze.IsInMaze(x, y)
    }

    /** The constructor: no move yet, no cell visited. */
    constructor (maze: Maze, startX: int, startY: int)
      requires maze.Valid() && maze.IsInMaze(startX, startY)
      ensures Valid() && this.maze == maze && x == startX && y == startY && lastMove == Count
      ensures fresh(visited)
      ensures forall i, j :: 0 <= i < visited.Length0 && 0 <= j < visited.Length1 ==> visited[i, j] == 0
    {
      this.maze := maze;
      x := startX;
      y := startY;
      lastMove := Count;
      visited := new int[maze.Width(), maze.Height()]((i, j) => 0);
    }

    /** The monster took one step in direction d and counted the cell it left. */
    twostate predicate MovedTo(d: Dir)
      reads this, visited
    {
      x == old(x) + XDelta[d] && y == old(y) + YDelta[d] && lastMove == d &&
      forall i, j :: 0 <= i < visited.Length0 && 0 <= j < visited.Length1 ==>
        visited[i, j] == old(visited[i, j]) + (if i == old(x) && j == old(y) then 1 else 0)
    }

    /** Nothing about the monster changed. */
    twostate predicate Stayed()
      reads this, visited
    {
      x == old(x) && y == old(y) && lastMove == old(lastMove) &&
      forall i, j :: 0 <= i < visited.Length0 && 0 <= j < visited.Length1 ==> visited[i, j] == old(visited[i, j])
    }

    /** `Move`: through an open side, count the cell left, step, and remember the direction;
        against a blocked side (which the source asserts against) nothing happens. */
    method Move(d: Dir)
      requires Valid()
      modifies this, visited
      ensures Valid()
      ensures old(Blocked(WallAt(maze.cells, (x, y), d))) ==> Stayed()
      ensures !old(Blocked(WallAt(maze.cells, (x, y), d))) ==> MovedTo(d)
    {
      if maze.cells[x, y].TestDir(d, IsBlocked) {
        return;
      }
      UnblockedStaysInside(maze.cells, (x, y), d);
      visited[x, y] := visited[x, y] + 1;
      x := x + XDelta[d];
      y := y + YDelta[d];
      lastMove := d;
    }

    /** `IsValidPos`: inside the visit counts. */
    predicate IsValidPos(px: int, py: int)
    {
      0 <= px < visited.Length0 && 0 <= py < visited.Length1
    }

    /** `CanTravelTo`, for a real direction: the neighbour is inside and the side is open.
        `Count` cannot be travelled to. */
    predicate CanTravelTo(d: Direction)
      reads this, maze, maze.cells
      requires Placed()
      ensures CanTravelTo(d) ==> d != Count && maze.IsInMaze(x + XDelta[d], y + YDelta[d])
      ensures CanTravelTo(d) ==> !Blocked(WallAt(maze.cells, (x, y), d))
    {
      d != Count && IsValidPos(x + XDelta[d], y + YDelta[d]) && !Blocked(WallAt(maze.cells, (x, y), d))
    }

    /** `CanTravelTo` as written: its first step indexes `xDelta` with the direction, which
        throws for `Count`. */
    function CanTravelToAsWritten(d: Direction): (r: Option<bool>)
      reads this, maze, maze.cells
      requires Placed()
      ensures r.None? <==> d == Count
      ensures r.Some? ==> r.value == CanTravelTo(d)
    {
      if d == Count then None
      else Some(IsValidPos(x + XDelta[d], y + YDelta[d]) && !maze.cells[x, y].TestDir(d, IsBlocked))
    }

    /** In a well-formed maze the bounds test is redundant: the monster can travel exactly
        through the open sides of its cell. */
    lemma TravelMeansOpen(d: Dir)
      requires Valid()
      ensures CanTravelTo(d) <==> !Blocked(WallAt(maze.cells, (x, y), d))
    {
      if !Blocked(WallAt(maze.cells, (x, y), d)) {
        UnblockedStaysInside(maze.cells, (x, y), d);
      }
    }

    /** The position `HomeIn` penalises: with `considerPrev`, the cell the last move came
        from; otherwise, or before any move, no cell of the maze. */
    function LastPos(considerPrev: bool): (p: Pos)
      reads this
      ensures considerPrev && lastMove != Count ==> Step(p, lastMove) == (x, y)
      ensures !(considerPrev && lastMove != Count) ==> p == (-1, -1)
    {
      if considerPrev && lastMove != Count then Step((x, y), Opposite(lastMove)) else (-1, -1)
    }

    /** The penalised position as written: `Opposite(Count)` is `Count`, and indexing `xDelta`
        with it throws. */
    function LastPosAsWritten(considerPrev: bool): (r: Option<Pos>)
      reads this
      ensures r.None? <==> considerPrev && lastMove == Count
      ensures r.Some? ==> r.value == LastPos(considerPrev)
    {
      if !considerPrev then Some((-1, -1))
      else if Opposite(lastMove) == Count then None
      else Some(Step((x, y), Opposite(lastMove)))
    }

    /** `HomeIn`: the best path from here to the target (penalising the previous cell when
        asked), whose first step is taken; the rest is returned. There is no answer (the
        search throws) exactly when the target is unreachable, and the monster then stays.
        Otherwise the monster took the first step of a walk to the target whose remainder is
        returned, and with no cell penalised that walk is a shortest one. */
    method HomeIn(tx: int, ty: int, considerPrev: bool) returns (r: Option<seq<Dir>>)
      requires Valid()
      modifies this, visited
      ensures Valid()
      ensures r.None? <==> !Reachable(maze.cells, old((x, y)), (tx, ty))
      ensures r.None? || old((x, y)) == (tx, ty) ==> Stayed()
      ensures r.Some? && old((x, y)) == (tx, ty) ==> r.value == []
      ensures r.Some? && old((x, y)) != (tx, ty) ==>
        lastMove != Count && MovedTo(lastMove) && IsWalk(maze.cells, (x, y), r.value, (tx, ty))
      ensures r.Some? && old((x, y)) != (tx, ty) && !InBounds(maze.cells, old(LastPos(considerPrev))) ==>
        forall w :: IsWalk(maze.cells, old((x, y)), w, (tx, ty)) ==> 1 + |r.value| <= |w|
    {
      var best := maze.FindBestPath((x, y), (tx, ty), LastPos(considerPrev));
      if best.None? {
        return None;
      }
      var path := best.value;
      if path != [] {
        assert (x, y) != (tx, ty);
        Move(path[0]);
        path := path[1..];
      }
      return Some(path);
    }

    /** The `possibilities` of `Wander` for the directions in `order`: each one that is not
        excluded and can be travelled to, with the visit count of the cell it leads to. */
    ghost function Candidates(order: seq<Dir>, exclude: Direction): seq<Candidate>
      reads this, maze, maze.cells, visited
      requires Placed()
    {
      if order == [] then []
      else
        var d := order[|order| - 1];
        Candidates(order[..|order| - 1], exclude) +
          if d != exclude && CanTravelTo(d) then [Candidate(d, visited[x + XDelta[d], y + YDelta[d]])] else []
    }

    /** The possibilities depend only on the monster, its maze and its counts. */
    twostate lemma {:induction false} CandidatesFramed(k: Pick)
      requires old(Placed()) && unchanged(this, maze, maze.cells, visited)
      ensures Placed() && Candidates(k.order, k.exclude) == old(Candidates(k.order, k.exclude))
      decreases |k.order|
    {
      if k.order != [] {
        CandidatesFramed(Pick(k.order[..|k.order| - 1], k.exclude));
      }
    }

    /** Gathering one more direction appends at most its candidate. */
    lemma CandidatesSnoc(order: seq<Dir>, d: Dir, exclude: Direction)
      requires Placed()
      ensures Candidates(order + [d], exclude) == Candidates(order, exclude) +
        if d != exclude && CanTravelTo(d) then [Candidate(d, visited[x + XDelta[d], y + YDelta[d]])] else []
    {
      assert (order + [d])[..|order|] == order;
    }

    /** A candidate is listed exactly when its direction is in the order, is not excluded and
        can be travelled to, and it carries the visit count of the cell it leads to. */
    lemma {:induction false} CandidatesMembers(order: seq<Dir>, exclude: Direction, c: Candidate)
      requires Placed()
      ensures c in Candidates(order, exclude) <==>
        c.dir in order && c.dir != exclude && CanTravelTo(c.dir) &&
        c.visits == visited[x + XDelta[c.dir], y + YDelta[c.dir]]
    {
      if order != [] {
        var init := order[..|order| - 1];
        CandidatesMembers(init, exclude, c);
        assert order == init + [order[|order| - 1]];
      }
    }

    /** The possibilities `Wander` gathers from the buffer order `buffer` and the tape of
        integer draws: the shuffled order, the way back left out. */
    ghost function Options(buffer: seq<Dir>, ints: seq<nat>): seq<Candidate>
      reads this, maze, maze.cells, visited
      requires Placed() && |buffer| == 4
    {
      Candidates(FisherYates(buffer, |buffer|, ints), Opposite(lastMove))
    }

    /** The gathering half of `ForEachDirRandomOrder` in `Wander`: each direction in the
        buffer's order that is not the way back and can be travelled to, with its count. */
    method Gather(order: seq<Dir>, exclude: Direction) returns (poss: seq<Candidate>)
      requires Placed()
      ensures poss == Candidates(order, exclude)
    {
      poss := [];
      for k := 0 to |order|
        invariant poss == Candidates(order[..k], exclude)
      {
        var curDir := order[k];
        assert order[..k + 1] == order[..k] + [curDir];
        CandidatesSnoc(order[..k], curDir, exclude);
        if curDir != exclude && CanTravelTo(curDir) {
          poss := poss + [Candidate(curDir, visited[x + XDelta[curDir], y + YDelta[curDir]])];
        }
      }
      assert order[..|order|] == order;
    }

    /** `ForEachDirRandomOrder` as `Wander` uses it: shuffle the shared buffer, then gather
        the possibilities in its new order. */
    method GatherShuffled(buf: DirectionBuffer, rng: Random) returns (poss: seq<Candidate>)
      requires Placed() && buf.Valid()
      modifies buf.directions, rng
      ensures poss == old(Options(buf.directions[..], rng.ints))
      ensures poss == Candidates(buf.directions[..], Opposite(lastMove))
      ensures buf.directions[..] == FisherYates(old(buf.directions[..]), buf.directions.Length, old(rng.ints))
      ensures rng.ints == FisherYatesTape(buf.directions.Length, old(rng.ints))
      ensures rng.units == old(rng.units) && rng.orders == old(rng.orders)
    {
      buf.ShuffleDirections(rng);
      poss := Gather(buf.directions[..], Opposite(lastMove));
      CandidatesFramed(Pick(buf.directions[..], Opposite(lastMove)));
    }

    /** Where `Wander` goes when it has no possibility: on in the last direction if it can,
        else back if it can, else nowhere. */
    function Fallback(): (r: Option<Dir>)
      reads this, maze, maze.cells
      requires Placed()
      ensures r.Some? ==> CanTravelTo(r.value)
      ensures r.Some? <==> CanTravelTo(lastMove) || CanTravelTo(Opposite(lastMove))
      ensures r.Some? && r.value != lastMove ==> !CanTravelTo(lastMove) && r.value == Opposite(lastMove)
    {
      if CanTravelTo(lastMove) then Some(lastMove as Dir)
      else if CanTravelTo(Opposite(lastMove)) then Some(Opposite(lastMove) as Dir)
      else None
    }

    /** A step that touches neither the monster, its counts nor its maze leaves it where it
        was, with the same fallback. */
    twostate lemma Unmoved()
      requires old(Placed()) && unchanged(this, visited, maze.cells)
      ensures Placed() && Stayed() && Fallback() == old(Fallback())
    {
    }

    /** The deciding half of `Wander`, once the possibilities are gathered: with none, go
        on in the last direction, else back, else stay. With more than one and a draw below
        `chance`, home in, penalising the previous cell; `ok` is false when that search
        throws. Otherwise move to the first least visited possibility. */
    method Decide(possibilities: seq<Candidate>, tx: int, ty: int, chance: real, buf: DirectionBuffer, rng: Random) returns (ok: bool)
      requires Valid() && (x, y) != (tx, ty)
      requires forall i :: 0 <= i < |possibilities| ==> CanTravelTo(possibilities[i].dir)
      modifies this, visited, rng
      ensures Valid()
      ensures rng.ints == old(rng.ints) && rng.orders == old(rng.orders)
      ensures rng.units == Skip(old(rng.units), if |possibilities| > 1 then 1 else 0)
      ensures buf.directions[..] == old(buf.directions[..])
      ensures possibilities == [] ==>
        ok && (if old(Fallback()).Some? then MovedTo(old(Fallback()).value) else Stayed())
      ensures |possibilities| > 1 && NextUnit(old(rng.units)) < chance ==>
        (ok <==> Reachable(maze.cells, old((x, y)), (tx, ty))) &&
        (ok ==> lastMove != Count && MovedTo(lastMove)) && (!ok ==> Stayed())
      ensures possibilities != [] && !(|possibilities| > 1 && NextUnit(old(rng.units)) < chance) ==>
        ok && MovedTo(possibilities[FirstLeast(possibilities)].dir)
    {
      if possibilities == [] {
        var dirToExclude := Opposite(lastMove);
        if CanTravelTo(lastMove) {
          TravelMeansOpen(lastMove as Dir);
          Move(lastMove as Dir);
        } else if CanTravelTo(dirToExclude) {
          TravelMeansOpen(dirToExclude as Dir);
          Move(dirToExclude as Dir);
        }
        return true;
      }
      if |possibilities| > 1 {
        var v := rng.Value();
        if v < chance {
          var rest := HomeIn(tx, ty, true);
          return rest.Some?;
        }
      }
      var i := FirstLeast(possibilities);
      TravelMeansOpen(possibilities[i].dir);
      Move(possibilities[i].dir);
      return true;
    }

    /** `Wander`: at the target, nothing happens. Otherwise the shared direction buffer is
        shuffled, the possibilities are gathered in its order, leaving out the way back, and
        `Decide` acts on them. */
    method Wander(tx: int, ty: int, chance: real, buf: DirectionBuffer, rng: Random) returns (ok: bool, ghost poss: seq<Candidate>)
      requires Valid() && buf.Valid()
      modifies this, visited, buf.directions, rng
      ensures Valid() && buf.Valid()
      ensures old((x, y)) == (tx, ty) ==>
        ok && Stayed() && buf.directions[..] == old(buf.directions[..]) &&
        rng.ints == old(rng.ints) && rng.units == old(rng.units)
      ensures old((x, y)) != (tx, ty) ==>
        poss == old(Options(buf.directions[..], rng.ints)) &&
        buf.directions[..] == FisherYates(old(buf.directions[..]), buf.directions.Length, old(rng.ints)) &&
        rng.ints == FisherYatesTape(buf.directions.Length, old(rng.ints)) &&
        rng.units == Skip(old(rng.units), if |poss| > 1 then 1 else 0)
      ensures old((x, y)) != (tx, ty) && poss == [] ==>
        ok && (if old(Fallback()).Some? then MovedTo(old(Fallback()).value) else Stayed())
      ensures old((x, y)) != (tx, ty) && |poss| > 1 && NextUnit(old(rng.units)) < chance ==>
        (ok <==> Reachable(maze.cells, old((x, y)), (tx, ty))) &&
        (ok ==> lastMove != Count && MovedTo(lastMove)) && (!ok ==> Stayed())
      ensures old((x, y)) != (tx, ty) && poss != [] && !(|poss| > 1 && NextUnit(old(rng.units)) < chance) ==>
        ok && MovedTo(poss[FirstLeast(poss)].dir)
      ensures rng.orders == old(rng.orders)
    {
      if x == tx && y == ty {
        return true, [];
      }
      var possibilities := GatherShuffled(buf, rng);
      poss := possibilities;
      Unmoved();
      forall i | 0 <= i < |possibilities|
        ensures CanTravelTo(possibilities[i].dir)
      {
        CandidatesMembers(buf.directions[..], Opposite(lastMove), possibilities[i]);
      }
      ok := Decide(possibilities, tx, ty, chance, buf, rng);
    }
  }

  /** Before its first move, a monster that homes in penalising its previous cell hits the
      `Opposite(Count)` lookup that throws, where the corrected version penalises nothing. */
  lemma FirstHomeInLookupThrows(m: Monster)
    requires m.lastMove == Count
    ensures m.LastPosAsWritten(true) == None
    ensures m.LastPos(true) == (-1, -1)
  {
  }

  /** A monster before its first move, alone in a cell with no open side (any cell of a 1×1
      maze), has no possibilities, and the fallback `CanTravelTo(mLastMove)` throws, where the
      corrected version stays put. */
  lemma FallbackLookupThrows(m: Monster, order: seq<Dir>)
    requires m.Valid() && m.lastMove == Count
    requires forall d: Dir :: Blocked(WallAt(m.maze.cells, (m.x, m.y), d))
    ensures m.Candidates(order, Opposite(m.lastMove)) == []
    ensures m.CanTravelToAsWritten(m.lastMove) == None && !m.CanTravelTo(m.lastMove)
  {
    if m.Candidates(order, Opposite(m.lastMove)) != [] {
      var c := m.Candidates(order, Opposite(m.lastMove))[0];
      m.CandidatesMembers(order, Opposite(m.lastMove), c);
    }
  }
}
