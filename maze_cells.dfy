/**
 * The data model shared by the maze engine (MazeData.cs) and its C++ port (MazeFun.cpp):
 * directions with their `Count` sentinel, the offset tables, wall states tested through
 * bit masks and the four-wall cell.
 */
module MazeCells {

  // ---------------------------------------------------------------------------------------
  // Directions
  // ---------------------------------------------------------------------------------------

  /** The `Direction` enumeration: North, East, South, West, then the `Count` sentinel. */
  newtype Direction = d: int | 0 <= d <= 4

  const North: Direction := 0
  const East: Direction := 1
  const South: Direction := 2
  const West: Direction := 3
  const Count: Direction := 4

  /** The four real directions, i.e. everything except the `Count` sentinel. */
  type Dir = d: Direction | d < 4 witness North

  /** The directions in enumeration order, the order `ForEachDir` visits them. */
  const AllDirs: seq<Dir> := [North, East, South, West]

  /** Column offset of a step in each direction (`xDelta`). */
  const XDelta: seq<int> := [0, 1, 0, -1]

  /** Row offset of a step in each direction (`yDelta`); North is towards row 0. */
  const YDelta: seq<int> := [-1, 0, 1, 0]

  /** `Opposite`: `Count` stays `Count`, a real direction is turned half way round. */
  function Opposite(d: Direction): (r: Direction)
    ensures d == Count <==> r == Count
    ensures d != Count ==> XDelta[r] == -XDelta[d] && YDelta[r] == -YDelta[d]
  {
    if d == Count then Count else ((d as int + 2) % 4) as Direction
  }

  /** The direction after d in enumeration order, wrapping round: `(d + 1) % Count`. */
  function NextDir(d: Dir): Dir
  {
    if d == West then North else d + 1
  }

  /** How many steps of `NextDir` lead from d to e. */
  function Ahead(d: Dir, e: Dir): nat
  {
    if d <= e then (e - d) as nat else (e as int - d as int + 4) as nat
  }

  /** Opposite is an involution, and no real direction is its own opposite. */
  lemma OppositeInvolution(d: Direction)
    ensures Opposite(Opposite(d)) == d
    ensures d != Count ==> Opposite(d) != d
  {
  }

  /** A step is determined by its direction: distinct directions have distinct offsets. */
  lemma DeltasDistinct(d: Dir, e: Dir)
    requires XDelta[d] == XDelta[e] && YDelta[d] == YDelta[e]
    ensures d == e
  {
  }

  /** The cell one step away from (x, y) in direction d. */
  function StepX(x: int, d: Dir): int { x + XDelta[d] }
  function StepY(y: int, d: Dir): int { y + YDelta[d] }

  /** A random order of the four directions: each direction exactly once. */
  predicate IsOrder(s: seq<Dir>)
  {
    |s| == 4 && (forall d: Dir :: d in s) && forall i, j :: 0 <= i < j < |s| ==> s[i] != s[j]
  }

  type Order = s: seq<Dir> | IsOrder(s) witness [North, East, South, West]

  // ---------------------------------------------------------------------------------------
  // Wall states and their bit masks
  // ---------------------------------------------------------------------------------------

  /** What separates a cell from its neighbour in one direction (`CellData.WallState`). */
  datatype WallState = Empty | Wall | OpenDoor | ClosedDoor

  /** The enumeration value of a wall state, the bit it owns in a mask. */
  function Ord(s: WallState): nat
  {
    match s
    case Empty => 0
    case Wall => 1
    case OpenDoor => 2
    case ClosedDoor => 3
  }

  const IsBlocked: bv8 := (1 << 1) | (1 << 3)
  const IsWall: bv8 := 1 << 1
  const IsDoor: bv8 := (1 << 2) | (1 << 3)
  const IsClosedDoor: bv8 := 1 << 3
  const IsOpenDoor: bv8 := 1 << 2
  const IsEmpty: bv8 := 1 << 0

  /** `TestWallState`: does the state's bit belong to the mask? The contract states which
      states each of the engine's masks accepts. */
  predicate TestWallState(s: WallState, cond: bv8)
    ensures cond == IsBlocked ==> (TestWallState(s, cond) <==> s == Wall || s == ClosedDoor)
    ensures cond == IsWall ==> (TestWallState(s, cond) <==> s == Wall)
    ensures cond == IsDoor ==> (TestWallState(s, cond) <==> s == OpenDoor || s == ClosedDoor)
    ensures cond == IsClosedDoor ==> (TestWallState(s, cond) <==> s == ClosedDoor)
    ensures cond == IsOpenDoor ==> (TestWallState(s, cond) <==> s == OpenDoor)
    ensures cond == IsEmpty ==> (TestWallState(s, cond) <==> s == Empty)
  {
    cond & (1 << Ord(s)) != 0
  }

  /** A state that cannot be walked through: a wall or a closed door. */
  predicate Blocked(s: WallState)
  {
    TestWallState(s, IsBlocked)
  }

  // ---------------------------------------------------------------------------------------
  // Cells
  // ---------------------------------------------------------------------------------------

  /** The four walls of a cell, indexed by direction. */
  type Walls = s: seq<WallState> | |s| == 4 witness [Empty, Empty, Empty, Empty]

  /** Number of blocked entries of a sequence of wall states (`Array.FindAll(...).Length`). */
  function CountBlocked(s: seq<WallState>): (n: nat)
    ensures n <= |s|
  {
    if s == [] then 0 else (if Blocked(s[0]) then 1 else 0) + CountBlocked(s[1..])
  }

  /** CountBlocked reaches the length exactly when every entry is blocked. */
  lemma {:induction false} CountBlockedFull(s: seq<WallState>)
    ensures CountBlocked(s) == |s| <==> forall i :: 0 <= i < |s| ==> Blocked(s[i])
  {
    if s != [] {
      CountBlockedFull(s[1..]);
      assert forall i :: 1 <= i < |s| ==> s[i] == s[1..][i - 1];
    }
  }

  /** CountBlocked is zero exactly when no entry is blocked. */
  lemma {:induction false} CountBlockedNone(s: seq<WallState>)
    ensures CountBlocked(s) == 0 <==> forall i :: 0 <= i < |s| ==> !Blocked(s[i])
  {
    if s != [] {
      CountBlockedNone(s[1..]);
      assert forall i :: 1 <= i < |s| ==> s[i] == s[1..][i - 1];
    }
  }

  /** Replacing one entry changes the count by the difference of the two entries' weights. */
  lemma {:induction false} CountBlockedUpdate(s: seq<WallState>, i: int, v: WallState)
    requires 0 <= i < |s|
    ensures CountBlocked(s[i := v]) + (if Blocked(s[i]) then 1 else 0)
         == CountBlocked(s) + (if Blocked(v) then 1 else 0)
  {
    if i > 0 {
      CountBlockedUpdate(s[1..], i - 1, v);
      assert s[i := v][1..] == s[1..][i - 1 := v];
    } else {
      assert s[i := v][1..] == s[1..];
    }
  }

  /** `CellData`: the state of the four walls of one maze cell. */
  datatype CellData = CellData(walls: Walls)
  {
    /** `TestDir`: test the wall in direction d against a mask. */
    predicate TestDir(d: Dir, cond: bv8)
    {
      TestWallState(walls[d], cond)
    }

    /** `GetWallState`. */
    function GetWallState(d: Dir): WallState
    {
      walls[d]
    }

    /** `IsFullyWalled`: no direction is passable. */
    predicate IsFullyWalled()
    {
      !(exists d: Dir :: !TestWallState(walls[d], IsBlocked))
    }

    /** `WallCount`: the number of blocked directions. */
    function WallCount(): (n: nat)
      ensures n <= 4
      ensures n == 4 <==> IsFullyWalled()
      ensures n == 0 <==> forall d: Dir :: !Blocked(walls[d])
    {
      CountBlockedFull(walls);
      CountBlockedNone(walls);
      assert forall i :: 0 <= i < 4 ==> walls[i] == walls[i as Dir];
      CountBlocked(walls)
    }

    /** `GetFirstHole`: the lowest direction whose wall is Empty, or `Count` if none is. */
    function GetFirstHole(): (r: Direction)
      ensures r != Count ==> walls[r] == Empty
      ensures forall d: Dir :: d < r ==> walls[d] != Empty
    {
      FirstHoleFrom(North)
    }

    /** The lowest direction at or after i whose wall is Empty, or `Count`. */
    function FirstHoleFrom(i: Direction): (r: Direction)
      ensures i <= r
      ensures r != Count ==> walls[r] == Empty
      ensures forall d: Dir :: i <= d < r ==> walls[d] != Empty
      decreases 4 - i
    {
      if i == Count then Count
      else if walls[i] == Empty then i
      else FirstHoleFrom(i + 1)
    }

    /** `Reset`: every wall becomes a Wall, or every wall becomes Empty. */
    function Reset(allWalls: bool): (c: CellData)
      ensures forall d: Dir :: c.walls[d] == (if allWalls then Wall else Empty)
    {
      CellData(if allWalls then [Wall, Wall, Wall, Wall] else [Empty, Empty, Empty, Empty])
    }

    /** `BreakWall`: open direction d, leaving an open door when `withDoor`. */
    function BreakWall(d: Dir, withDoor: bool): (c: CellData)
      ensures c.walls[d] == (if withDoor then WallState.OpenDoor else Empty)
      ensures forall e: Dir :: e != d ==> c.walls[e] == walls[e]
    {
      CellData(walls[d := if withDoor then WallState.OpenDoor else Empty])
    }

    /** `OpenDoor`: the door in direction d is opened (d must hold a door). */
    function OpenDoor(d: Dir): (c: CellData)
      requires TestDir(d, IsDoor)
      ensures c.walls[d] == WallState.OpenDoor
      ensures forall e: Dir :: e != d ==> c.walls[e] == walls[e]
    {
      CellData(walls[d := WallState.OpenDoor])
    }

    /** `CloseDoor`: the door in direction d is closed (d must hold a door). */
    function CloseDoor(d: Dir): (c: CellData)
      requires TestDir(d, IsDoor)
      ensures c.walls[d] == ClosedDoor
      ensures forall e: Dir :: e != d ==> c.walls[e] == walls[e]
    {
      CellData(walls[d := ClosedDoor])
    }

    /** `FlipDoor`: an open door closes, a closed one opens, anything else stays. */
    function FlipDoor(d: Dir): (c: CellData)
      ensures walls[d] == WallState.OpenDoor ==> c.walls[d] == ClosedDoor
      ensures walls[d] == ClosedDoor ==> c.walls[d] == WallState.OpenDoor
      ensures !TestDir(d, IsDoor) ==> c == this
      ensures forall e: Dir :: e != d ==> c.walls[e] == walls[e]
    {
      if walls[d] == WallState.OpenDoor then CellData(walls[d := ClosedDoor])
      else if walls[d] == ClosedDoor then CellData(walls[d := WallState.OpenDoor])
      else this
    }

    /** `GetChar`: the one-character glyph of a wall; vertical walls and horizontal walls
        draw doors and walls differently, and `Count` draws as "?". */
    function GetChar(d: Direction): (r: string)
      ensures |r| == 1
      ensures d == Count <==> r == "?"
    {
      if d == North || d == South then
        match walls[d]
        case Empty => " "
        case Wall => "_"
        case OpenDoor => "."
        case ClosedDoor => "="
      else if d == East || d == West then
        match walls[d]
        case Empty => " "
        case Wall => "|"
        case OpenDoor => "."
        case ClosedDoor => "/"
      else "?"
    }

    /** `GetNeighbours`: the unblocked directions, in enumeration order. */
    method GetNeighbours() returns (r: seq<Dir>)
      ensures forall d: Dir :: d in r <==> !Blocked(walls[d])
      ensures forall i, j :: 0 <= i < j < |r| ==> r[i] < r[j]
    {
      r := [];
      for i: Direction := North to Count
        invariant forall d: Dir :: d in r <==> d < i && !Blocked(walls[d])
        invariant forall j :: 0 <= j < |r| ==> r[j] < i
        invariant forall j, k :: 0 <= j < k < |r| ==> r[j] < r[k]
      {
        if !TestDir(i as Dir, IsBlocked) {
          r := r + [i as Dir];
        }
      }
    }
  }

  /** The `CellData` constructor: all four walls Empty. */
  function NewCellData(): (c: CellData)
    ensures forall d: Dir :: c.walls[d] == Empty
    ensures c.WallCount() == 0
  {
    CellData([Empty, Empty, Empty, Empty])
  }

  /** Breaking a blocked wall removes exactly one blocked direction. */
  lemma BreakWallCount(c: CellData, d: Dir, withDoor: bool)
    requires Blocked(c.walls[d])
    ensures c.BreakWall(d, withDoor).WallCount() + 1 == c.WallCount()
  {
    CountBlockedUpdate(c.walls, d as int, if withDoor then OpenDoor else Empty);
  }

  /** A fully walled cell has every direction blocked, and resetting makes one. */
  lemma ResetCount(c: CellData)
    ensures c.Reset(true).IsFullyWalled() && c.Reset(true).WallCount() == 4
    ensures c.Reset(false).WallCount() == 0
  {
  }

  /** Opening or closing a door keeps it a door and keeps the blocked count within one. */
  lemma DoorOperations(c: CellData, d: Dir)
    requires c.TestDir(d, IsDoor)
    ensures c.OpenDoor(d).TestDir(d, IsDoor) && c.CloseDoor(d).TestDir(d, IsDoor)
    ensures c.OpenDoor(d).WallCount() == c.WallCount() - (if c.walls[d] == ClosedDoor then 1 else 0)
    ensures c.CloseDoor(d).WallCount() == c.WallCount() + (if c.walls[d] == WallState.OpenDoor then 1 else 0)
  {
    CountBlockedUpdate(c.walls, d as int, WallState.OpenDoor);
    CountBlockedUpdate(c.walls, d as int, ClosedDoor);
  }

  /** Flipping a door twice restores the cell. */
  lemma FlipDoorInvolution(c: CellData, d: Dir)
    ensures c.FlipDoor(d).FlipDoor(d) == c
  {
    assert c.FlipDoor(d).FlipDoor(d).walls == c.walls;
  }

  /** The glyph of a wall tells its state back, given the axis of the wall. */
  function StateOfGlyph(vertical: bool, g: string): (r: Option<WallState>)
  {
    if g == " " then Some(Empty)
    else if g == "." then Some(WallState.OpenDoor)
    else if !vertical && g == "_" then Some(Wall)
    else if !vertical && g == "=" then Some(ClosedDoor)
    else if vertical && g == "|" then Some(Wall)
    else if vertical && g == "/" then Some(ClosedDoor)
    else None
  }

  /** Decoding a drawn glyph recovers the wall state it was drawn from. */
  lemma GlyphRoundTrip(c: CellData, d: Dir)
    ensures StateOfGlyph(d == East || d == West, c.GetChar(d)) == Some(c.walls[d])
  {
  }

  /** The blocked count of a cell is the sum of the four directions' weights. */
  lemma CountOfFour(c: CellData)
    ensures c.WallCount() == (if Blocked(c.walls[North]) then 1 else 0) + (if Blocked(c.walls[East]) then 1 else 0)
                           + (if Blocked(c.walls[South]) then 1 else 0) + (if Blocked(c.walls[West]) then 1 else 0)
  {
    var s := c.walls;
    assert s[1..][1..][1..][1..] == [];
    assert s[1..][0] == s[1] && s[1..][1..][0] == s[2] && s[1..][1..][1..][0] == s[3];
    assert CountBlocked(s[1..][1..][1..]) == (if Blocked(s[3]) then 1 else 0);
    assert CountBlocked(s[1..][1..]) == (if Blocked(s[2]) then 1 else 0) + CountBlocked(s[1..][1..][1..]);
    assert CountBlocked(s[1..]) == (if Blocked(s[1]) then 1 else 0) + CountBlocked(s[1..][1..]);
  }

  /** A cell with two open directions has at most two blocked ones. */
  lemma TwoOpenSides(c: CellData, d: Dir, e: Dir)
    requires d != e && !Blocked(c.walls[d]) && !Blocked(c.walls[e])
    ensures c.WallCount() <= 2
  {
    CountOfFour(c);
  }

  datatype Option<T> = None | Some(value: T)
}
