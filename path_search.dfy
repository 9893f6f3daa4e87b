/**
 * The A* search of `Maze.FindBestPath`: the search state (a sorted frontier, the cost so far
 * and the parent of every position reached), the invariants the search loop keeps, and the
 * facts that make its answer a walk, make "no answer" mean "unreachable", and make the walk
 * a shortest one when no position carries the penalty.
 */
module PathSearch {
  import opened MazeCells
  import opened MazeGrid
  import opened MazeUtil

  /** The endpoints of one search and the position the heuristic penalises. */
  datatype Query = Query(start: Pos, goal: Pos, last: Pos)

  /** The search state: the frontier list, `costSoFar` and `cameFrom`. */
  datatype Search = Search(frontier: seq<PrioritizedPos>, cost: map<Pos, int>, cameFrom: map<Pos, Pos>)

  function Abs(n: int): nat { if n < 0 then -n else n }

  /** The Manhattan distance between two positions. */
  function Manhattan(p: Pos, q: Pos): nat
  {
    Abs(p.0 - q.0) + Abs(p.1 - q.1)
  }

  /** The `heuristic` lambda: 100000 at the penalised position, the Manhattan distance to the
      goal elsewhere. */
  function Heuristic(q: Query, p: Pos): (h: int)
    ensures h >= 0
    ensures p != q.last ==> h == Manhattan(p, q.goal)
  {
    if p == q.last then 100000 else Manhattan(p, q.goal)
  }

  /** The `getDir` lambda: the direction leading from p1 to the adjacent p2, or `Count`
      (where the source asserts) when they are not adjacent. */
  function GetDir(p1: Pos, p2: Pos): (d: Direction)
    ensures d != Count ==> Step(p1, d) == p2
  {
    var dx, dy := p2.0 - p1.0, p2.1 - p1.1;
    if dx == 0 && dy == -1 then North
    else if dx == 1 && dy == 0 then East
    else if dx == 0 && dy == 1 then South
    else if dx == -1 && dy == 0 then West
    else Count
  }

  /** `getDir` recovers the direction of every step. */
  lemma GetDirOfStep(p: Pos, d: Dir)
    ensures GetDir(p, Step(p, d)) == d
  {
  }

  /** s back to front. */
  function Reversed<T>(s: seq<T>): (r: seq<T>)
    ensures |r| == |s|
  {
    if s == [] then [] else Reversed(s[1..]) + [s[0]]
  }

  lemma {:induction false} ReversedSnoc<T>(s: seq<T>, x: T)
    ensures Reversed(s + [x]) == [x] + Reversed(s)
  {
    if s != [] {
      assert (s + [x])[1..] == s[1..] + [x];
      ReversedSnoc(s[1..], x);
    } else {
      assert s + [x] == [x];
    }
  }

  /** The priority an entry for p has when it is p's current one: 0 for the start, cost plus
      heuristic for any other position. */
  ghost function Prio(q: Query, s: Search, p: Pos): int
    requires p in s.cost
  {
    if p == q.start then 0 else s.cost[p] + Heuristic(q, p)
  }

  /** p has been expanded with its current cost: every open side leads to a reached position
      whose cost is at most one more. */
  ghost predicate Expanded(a: Grid, s: Search, p: Pos)
    reads a
  {
    p in s.cost && InBounds(a, p) &&
    forall d: Dir :: !Blocked(WallAt(a, p, d)) ==> Step(p, d) in s.cost && s.cost[Step(p, d)] <= s.cost[p] + 1
  }

  /** p still has its current entry in the frontier, or has been expanded. */
  ghost predicate Closed(a: Grid, q: Query, s: Search, p: Pos)
    reads a
  {
    p in s.cost && ((p, Prio(q, s, p)) in s.frontier || Expanded(a, s, p))
  }

  /** Every reached position other than c is closed. */
  ghost predicate ClosedExcept(a: Grid, q: Query, s: Search, c: Pos)
    reads a
  {
    forall p :: p in s.cost && p != c ==> Closed(a, q, s, p)
  }

  /** Every reached position is closed. */
  ghost predicate AllClosed(a: Grid, q: Query, s: Search)
    reads a
  {
    forall p :: p in s.cost ==> Closed(a, q, s, p)
  }

  /** A reached position other than the start has a reached parent of lower cost, from
      which an open side leads to it in the direction `getDir` finds. */
  ghost predicate Linked(a: Grid, q: Query, s: Search, p: Pos)
    reads a
    requires p in s.cost && p in s.cameFrom
  {
    p == q.start ||
    (var prev := s.cameFrom[p]; var d := GetDir(prev, p);
     prev in s.cost && s.cost[prev] < s.cost[p] && d != Count && InBounds(a, prev) && !Blocked(WallAt(a, prev, d)))
  }

  /** What the search loop keeps: the frontier is strictly sorted; `costSoFar` and `cameFrom`
      have the same keys, all in the grid; the start costs 0 and every cost is non-negative;
      every reached position is linked to its parent; and every frontier entry belongs to a
      reached position and has at least that position's current priority. */
  ghost predicate SearchInv(a: Grid, q: Query, s: Search)
    reads a
  {
    InBounds(a, q.start) && q.start != q.goal &&
    SortedFrontier(s.frontier) &&
    s.cost.Keys == s.cameFrom.Keys && s.cost.Keys <= AllCells(a) &&
    q.start in s.cost && s.cost[q.start] == 0 &&
    (forall p :: p in s.cost ==> s.cost[p] >= 0 && Linked(a, q, s, p)) &&
    (forall e :: e in s.frontier ==> e.0 in s.cost && e.1 >= Prio(q, s, e.0))
  }

  /** The search as it starts: only the start is reached, with its entry of priority 0. */
  lemma SearchStarts(a: Grid, q: Query)
    requires InBounds(a, q.start) && q.start != q.goal
    ensures var s := Search([(q.start, 0)], map[q.start := 0], map[q.start := q.start]);
      SearchInv(a, q, s) && AllClosed(a, q, s)
  {
    assert q.start in AllCells(a);
  }

  /** Once the goal is reached, its current entry is in the frontier: the only way it leaves
      is by being popped, which ends the search. */
  ghost predicate GoalPending(q: Query, s: Search)
  {
    q.goal in s.cost ==> (q.goal, Prio(q, s, q.goal)) in s.frontier
  }

  /** Popping the head of the frontier keeps the invariant, keeps every other position
      closed, and keeps the goal pending unless the head is the goal's. */
  lemma PopKeeps(a: Grid, q: Query, s: Search)
    requires SearchInv(a, q, s) && AllClosed(a, q, s) && GoalPending(q, s) && s.frontier != []
    ensures s.frontier[0].0 in s.cost && InBounds(a, s.frontier[0].0)
    ensures var t := s.(frontier := s.frontier[1..]);
      SearchInv(a, q, t) && ClosedExcept(a, q, t, s.frontier[0].0) &&
      (s.frontier[0].0 != q.goal ==> GoalPending(q, t))
  {
    PopKeepsInv(a, q, s);
    PopKeepsClosed(a, q, s);
    if s.frontier[0].0 != q.goal {
      PopKeepsPending(q, s);
    }
  }

  /** Popping the head keeps the search invariant, and the head is a reached cell. */
  lemma PopKeepsInv(a: Grid, q: Query, s: Search)
    requires SearchInv(a, q, s) && s.frontier != []
    ensures s.frontier[0].0 in s.cost && InBounds(a, s.frontier[0].0)
    ensures SearchInv(a, q, s.(frontier := s.frontier[1..]))
  {
    var t := s.(frontier := s.frontier[1..]);
    assert s.frontier[0] in s.frontier;
    assert s.frontier[0].0 in AllCells(a);
    TailSorted(s.frontier);
    forall p | p in t.cost ensures Linked(a, q, t, p) {
      assert Linked(a, q, s, p);
    }
    forall e | e in t.frontier ensures e.0 in t.cost && e.1 >= Prio(q, t, e.0) {
      assert e in s.frontier;
    }
  }

  /** Popping the head leaves every other reached cell closed. */
  lemma PopKeepsClosed(a: Grid, q: Query, s: Search)
    requires AllClosed(a, q, s) && s.frontier != []
    ensures ClosedExcept(a, q, s.(frontier := s.frontier[1..]), s.frontier[0].0)
  {
    var t := s.(frontier := s.frontier[1..]);
    forall p | p in t.cost && p != s.frontier[0].0 ensures Closed(a, q, t, p) {
      PopKeepsClosedAt(a, q, s, p);
    }
  }

  /** Popping a head that is not the goal keeps the goal's entry. */
  lemma PopKeepsPending(q: Query, s: Search)
    requires GoalPending(q, s) && s.frontier != [] && s.frontier[0].0 != q.goal
    ensures GoalPending(q, s.(frontier := s.frontier[1..]))
  {
    var t := s.(frontier := s.frontier[1..]);
    if q.goal in s.cost {
      var i :| 0 <= i < |s.frontier| && s.frontier[i] == (q.goal, Prio(q, s, q.goal));
      assert i != 0;
      assert t.frontier[i - 1] == s.frontier[i];
    }
  }

  lemma PopKeepsClosedAt(a: Grid, q: Query, s: Search, p: Pos)
    requires s.frontier != [] && Closed(a, q, s, p) && p != s.frontier[0].0
    ensures Closed(a, q, s.(frontier := s.frontier[1..]), p)
  {
    var t := s.(frontier := s.frontier[1..]);
    assert Prio(q, t, p) == Prio(q, s, p);
    if (p, Prio(q, s, p)) in s.frontier {
      var i :| 0 <= i < |s.frontier| && s.frontier[i] == (p, Prio(q, s, p));
      assert t.frontier[i - 1] == s.frontier[i];
    } else {
      assert Expanded(a, t, p);
    }
  }

  /** The sum of the costs over the grid. */
  ghost function GridTotal(a: Grid, s: Search): nat
  {
    Total(s.cost, RowMajor(a.Length0, a.Length1))
  }

  /** What the search loop keeps from one round to the next. */
  ghost predicate LoopInv(a: Grid, q: Query, s: Search)
    reads a
  {
    SearchInv(a, q, s) && AllClosed(a, q, s) && GoalPending(q, s)
  }

  /** The search loop's measure, compared lexicographically: positions not yet reached, the
      sum of the costs, the length of the frontier. */
  ghost predicate Decreases(a: Grid, s: Search, t: Search)
  {
    |AllCells(a) - t.cost.Keys| < |AllCells(a) - s.cost.Keys| ||
    (|AllCells(a) - t.cost.Keys| == |AllCells(a) - s.cost.Keys| &&
     (GridTotal(a, t) < GridTotal(a, s) || (GridTotal(a, t) == GridTotal(a, s) && |t.frontier| < |s.frontier|)))
  }

  /** A round (pop the head, expand it) leaves fewer positions to reach, or a lower sum of
      costs, or a shorter frontier: the round's measure goes down. */
  lemma RoundDecreases(a: Grid, s: Search, t: Search)
    requires s.frontier != [] && s.cost.Keys <= AllCells(a) && t.cost.Keys <= AllCells(a)
    requires Progress(a, s.(frontier := s.frontier[1..]), t)
    ensures Decreases(a, s, t)
  {
    if t.cost.Keys != s.cost.Keys {
      FewerLeft(a, s.cost.Keys, t.cost.Keys);
    }
  }

  /** One step of the backtrack: the parent of a reached position p other than the start is
      reached more cheaply, and a walk from p extends to one from the parent. */
  lemma WalkFromParent(a: Grid, q: Query, s: Search, p: Pos, w: seq<Dir>, g: Pos)
    requires SearchInv(a, q, s) && p in s.cost && p != q.start && IsWalk(a, p, w, g)
    ensures var prev := s.cameFrom[p]; var d := GetDir(prev, p);
      prev in s.cost && 0 <= s.cost[prev] < s.cost[p] && d != Count && IsWalk(a, prev, [d as Dir] + w, g)
  {
    assert Linked(a, q, s, p);
    var prev := s.cameFrom[p];
    var d: Dir := GetDir(prev, p);
    assert ([d] + w)[1..] == w;
  }

  /** When the frontier runs out, every reached position is expanded, so every walk from the
      start ends at a reached position. */
  lemma ExhaustedReach(a: Grid, q: Query, s: Search, w: seq<Dir>, r: Pos)
    requires SearchInv(a, q, s) && AllClosed(a, q, s) && s.frontier == []
    requires IsWalk(a, q.start, w, r)
    ensures r in s.cost
  {
    assert forall x :: x in s.cost ==> Expanded(a, s, x) by {
      forall x | x in s.cost ensures Expanded(a, s, x) {
        assert Closed(a, q, s, x);
      }
    }
    ClosedReach(a, q, s, q.start, w, r);
  }

  // ---------------------------------------------------------------------------------------
  // One relaxation: reaching `next` from `current` more cheaply
  // ---------------------------------------------------------------------------------------

  /** The frontier entry for `next` reached at `newCost`. */
  function NewEntry(q: Query, next: Pos, newCost: int): PrioritizedPos
  {
    (next, newCost + Heuristic(q, next))
  }

  /** `FindBestPath` relaxes the neighbour across the open side d of `current`: it has not
      been reached, or only at a higher cost than through `current`. */
  ghost predicate CanRelax(a: Grid, q: Query, s: Search, current: Pos, d: Dir)
    reads a
  {
    current in s.cost && InBounds(a, current) && !Blocked(WallAt(a, current, d)) &&
    InBounds(a, Step(current, d)) &&
    (Step(current, d) !in s.cost || s.cost[current] + 1 < s.cost[Step(current, d)])
  }

  /** The relaxed neighbour is not the start, lies in the grid, and its new entry is not in the
      frontier yet (which is what `SortedAdd` asserts). */
  lemma RelaxedEntryIsNew(a: Grid, q: Query, s: Search, current: Pos, d: Dir)
    requires SearchInv(a, q, s) && CanRelax(a, q, s, current, d)
    ensures Step(current, d) != q.start && Step(current, d) in AllCells(a)
    ensures NewEntry(q, Step(current, d), s.cost[current] + 1) !in s.frontier
  {
  }

  /** The search state after relaxing `next` from `current`: the new cost, a new frontier
      entry and `current` as the parent. */
  function Relax(q: Query, s: Search, current: Pos, next: Pos): (r: Search)
    requires current in s.cost && SortedFrontier(s.frontier)
    requires NewEntry(q, next, s.cost[current] + 1) !in s.frontier
    ensures r.cost.Keys == s.cost.Keys + {next} && r.cameFrom.Keys == s.cameFrom.Keys + {next}
    ensures r.cost[next] == s.cost[current] + 1 && r.cameFrom[next] == current
    ensures forall p :: p in s.cost && p != next ==> r.cost[p] == s.cost[p]
    ensures forall p :: p in s.cameFrom && p != next ==> r.cameFrom[p] == s.cameFrom[p]
    ensures SortedFrontier(r.frontier)
    ensures forall e :: e in r.frontier <==> e in s.frontier || e == NewEntry(q, next, s.cost[current] + 1)
  {
    var newCost := s.cost[current] + 1;
    var f := SortedAdd(s.frontier, NewEntry(q, next, newCost));
    SortedAddKeepsSorted(s.frontier, NewEntry(q, next, newCost));
    assert forall e :: e in f <==> e in multiset(f);
    Search(f, s.cost[next := newCost], s.cameFrom[next := current])
  }

  /** `Relax` is the three updates of the source's relaxation, in terms of its `newCost` and
      `priority`. */
  lemma RelaxUpdates(q: Query, s: Search, current: Pos, next: Pos, newCost: int, priority: int)
    requires current in s.cost && SortedFrontier(s.frontier)
    requires newCost == s.cost[current] + 1 && priority == newCost + Heuristic(q, next)
    requires NewEntry(q, next, s.cost[current] + 1) !in s.frontier
    ensures (next, priority) !in s.frontier
    ensures Relax(q, s, current, next) ==
      Search(SortedAdd(s.frontier, (next, priority)), s.cost[next := newCost], s.cameFrom[next := current])
  {
  }

  /** A relaxation keeps the link of every reached position. */
  lemma RelaxKeepsLink(a: Grid, q: Query, s: Search, current: Pos, d: Dir, p: Pos)
    requires SearchInv(a, q, s) && CanRelax(a, q, s, current, d)
    requires NewEntry(q, Step(current, d), s.cost[current] + 1) !in s.frontier
    requires p in s.cost || p == Step(current, d)
    ensures var r := Relax(q, s, current, Step(current, d));
      r.cost[p] >= 0 && Linked(a, q, r, p)
  {
    var next := Step(current, d);
    var r := Relax(q, s, current, next);
    if p == next {
      GetDirOfStep(current, d);
    } else if p != q.start {
      assert Linked(a, q, s, p);
      var prev := s.cameFrom[p];
      assert r.cost[prev] <= s.cost[prev];
    }
  }

  /** A relaxation keeps every frontier entry at or above its position's priority. */
  lemma RelaxKeepsEntry(a: Grid, q: Query, s: Search, current: Pos, d: Dir, e: PrioritizedPos)
    requires SearchInv(a, q, s) && CanRelax(a, q, s, current, d)
    requires NewEntry(q, Step(current, d), s.cost[current] + 1) !in s.frontier
    requires e in Relax(q, s, current, Step(current, d)).frontier
    ensures var r := Relax(q, s, current, Step(current, d));
      e.0 in r.cost && e.1 >= Prio(q, r, e.0)
  {
    var next := Step(current, d);
    var r := Relax(q, s, current, next);
    if e != NewEntry(q, next, s.cost[current] + 1) {
      assert e in s.frontier;
      assert r.cost[e.0] <= s.cost[e.0];
    }
  }

  /** A relaxation keeps the search invariant. */
  lemma RelaxKeepsInv(a: Grid, q: Query, s: Search, current: Pos, d: Dir)
    requires SearchInv(a, q, s) && CanRelax(a, q, s, current, d)
    ensures NewEntry(q, Step(current, d), s.cost[current] + 1) !in s.frontier
    ensures SearchInv(a, q, Relax(q, s, current, Step(current, d)))
  {
    RelaxedEntryIsNew(a, q, s, current, d);
    var r := Relax(q, s, current, Step(current, d));
    forall p | p in r.cost ensures r.cost[p] >= 0 && Linked(a, q, r, p) {
      RelaxKeepsLink(a, q, s, current, d, p);
    }
    forall e | e in r.frontier ensures e.0 in r.cost && e.1 >= Prio(q, r, e.0) {
      RelaxKeepsEntry(a, q, s, current, d, e);
    }
  }

  /** Every position reached in `s` is reached in `r`, at no higher cost. */
  ghost predicate CostsLowered(s: Search, r: Search)
  {
    forall x :: x in s.cost ==> x in r.cost && r.cost[x] <= s.cost[x]
  }

  /** A position stays expanded while its own cost stays and the others only go down. */
  lemma ExpandedKept(a: Grid, s: Search, r: Search, p: Pos)
    requires Expanded(a, s, p) && CostsLowered(s, r) && r.cost[p] == s.cost[p]
    ensures Expanded(a, r, p)
  {
  }

  /** A relaxation lowers costs only. */
  lemma RelaxLowers(q: Query, s: Search, current: Pos, next: Pos)
    requires current in s.cost && SortedFrontier(s.frontier)
    requires NewEntry(q, next, s.cost[current] + 1) !in s.frontier
    requires next in s.cost ==> s.cost[current] + 1 < s.cost[next]
    ensures CostsLowered(s, Relax(q, s, current, next))
  {
  }

  /** A relaxation keeps closed a position other than `current`, and closes `next`. */
  lemma RelaxKeepsClosedAt(a: Grid, q: Query, s: Search, current: Pos, d: Dir, p: Pos)
    requires CanRelax(a, q, s, current, d) && SortedFrontier(s.frontier) && Step(current, d) != q.start
    requires NewEntry(q, Step(current, d), s.cost[current] + 1) !in s.frontier
    requires p != current && (p == Step(current, d) || Closed(a, q, s, p))
    ensures Closed(a, q, Relax(q, s, current, Step(current, d)), p)
  {
    var next := Step(current, d);
    var r := Relax(q, s, current, next);
    if p != next {
      assert Prio(q, r, p) == Prio(q, s, p);
      if Expanded(a, s, p) {
        RelaxLowers(q, s, current, next);
        ExpandedKept(a, s, r, p);
      }
    }
  }

  /** A relaxation keeps every position other than `current` closed, and closes `next`. */
  lemma RelaxKeepsClosed(a: Grid, q: Query, s: Search, current: Pos, d: Dir)
    requires SearchInv(a, q, s) && CanRelax(a, q, s, current, d) && ClosedExcept(a, q, s, current)
    ensures NewEntry(q, Step(current, d), s.cost[current] + 1) !in s.frontier
    ensures ClosedExcept(a, q, Relax(q, s, current, Step(current, d)), current)
  {
    RelaxedEntryIsNew(a, q, s, current, d);
    var r := Relax(q, s, current, Step(current, d));
    forall p | p in r.cost && p != current ensures Closed(a, q, r, p) {
      RelaxKeepsClosedAt(a, q, s, current, d, p);
    }
  }

  /** A relaxation keeps the goal pending. */
  lemma RelaxKeepsPending(a: Grid, q: Query, s: Search, current: Pos, d: Dir)
    requires CanRelax(a, q, s, current, d) && SortedFrontier(s.frontier) && Step(current, d) != q.start
    requires NewEntry(q, Step(current, d), s.cost[current] + 1) !in s.frontier
    requires GoalPending(q, s)
    ensures GoalPending(q, Relax(q, s, current, Step(current, d)))
  {
    var r := Relax(q, s, current, Step(current, d));
    if q.goal != Step(current, d) && q.goal in s.cost {
      assert Prio(q, r, q.goal) == Prio(q, s, q.goal);
    }
  }

  /** A relaxation reaches a new position, or lowers the sum of the costs over the grid
      without reaching one. */
  lemma RelaxMeasure(a: Grid, q: Query, s: Search, current: Pos, d: Dir)
    requires CanRelax(a, q, s, current, d) && s.cost[current] >= 0 && SortedFrontier(s.frontier)
    requires NewEntry(q, Step(current, d), s.cost[current] + 1) !in s.frontier
    ensures var r := Relax(q, s, current, Step(current, d));
      s.cost.Keys < r.cost.Keys ||
      (s.cost.Keys == r.cost.Keys && Total(r.cost, RowMajor(a.Length0, a.Length1)) < Total(s.cost, RowMajor(a.Length0, a.Length1)))
  {
    var next := Step(current, d);
    if next in s.cost {
      InRowMajor(a.Length0, a.Length1, next);
      TotalLowers(s.cost, RowMajor(a.Length0, a.Length1), next, s.cost[current] + 1);
      assert Relax(q, s, current, next).cost == s.cost[next := s.cost[current] + 1];
    }
  }

  /** The search has reached a new position since `s0`, lowered the sum of the costs over the
      grid, or left the frontier as it was. */
  ghost predicate Progress(a: Grid, s0: Search, s: Search)
  {
    var list := RowMajor(a.Length0, a.Length1);
    s0.cost.Keys <= s.cost.Keys &&
    (s.cost.Keys == s0.cost.Keys ==>
       Total(s.cost, list) <= Total(s0.cost, list) && (Total(s.cost, list) == Total(s0.cost, list) ==> s.frontier == s0.frontier))
  }

  /** What the neighbour loop keeps while expanding `current` from the state `s0`, having
      handled the first n of the directions `sides`. */
  ghost predicate ExpandInv(a: Grid, q: Query, s0: Search, s: Search, current: Pos, sides: seq<Dir>, n: nat)
    reads a
  {
    BorderWalled(a) && InBounds(a, current) &&
    SearchInv(a, q, s) && ClosedExcept(a, q, s, current) && GoalPending(q, s) &&
    current in s0.cost && CostsLowered(s0, s) && current in s.cost && s.cost[current] == s0.cost[current] &&
    n <= |sides| &&
    (forall i :: 0 <= i < n ==> Step(current, sides[i]) in s.cost && s.cost[Step(current, sides[i])] <= s0.cost[current] + 1) &&
    Progress(a, s0, s)
  }

  /** The neighbour loop starts with the state it was given. */
  lemma ExpandStarts(a: Grid, q: Query, s: Search, current: Pos, sides: seq<Dir>)
    requires BorderWalled(a) && InBounds(a, current) && current in s.cost
    requires SearchInv(a, q, s) && ClosedExcept(a, q, s, current) && GoalPending(q, s)
    ensures ExpandInv(a, q, s, s, current, sides, 0)
  {
  }

  /** Relaxing the neighbour across side d keeps the loop's invariant with d handled. */
  lemma RelaxStep(a: Grid, q: Query, s0: Search, s: Search, current: Pos, sides: seq<Dir>, n: nat)
    requires ExpandInv(a, q, s0, s, current, sides, n) && n < |sides|
    requires var d := sides[n]; !Blocked(WallAt(a, current, d))
    requires var d := sides[n]; Step(current, d) !in s.cost || s.cost[current] + 1 < s.cost[Step(current, d)]
    ensures NewEntry(q, Step(current, sides[n]), s.cost[current] + 1) !in s.frontier
    ensures ExpandInv(a, q, s0, Relax(q, s, current, Step(current, sides[n])), current, sides, n + 1)
  {
    var d := sides[n];
    UnblockedStaysInside(a, current, d);
    assert CanRelax(a, q, s, current, d);
    RelaxedEntryIsNew(a, q, s, current, d);
    RelaxKeepsInv(a, q, s, current, d);
    RelaxKeepsClosed(a, q, s, current, d);
    RelaxKeepsPending(a, q, s, current, d);
    RelaxBookkeeping(a, q, s0, s, current, sides, n);
  }

  /** The costs and the measure part of `RelaxStep`. */
  lemma RelaxBookkeeping(a: Grid, q: Query, s0: Search, s: Search, current: Pos, sides: seq<Dir>, n: nat)
    requires n < |sides| && CanRelax(a, q, s, current, sides[n]) && SortedFrontier(s.frontier)
    requires NewEntry(q, Step(current, sides[n]), s.cost[current] + 1) !in s.frontier
    requires current in s0.cost && CostsLowered(s0, s) && s.cost[current] == s0.cost[current] && s.cost[current] >= 0
    requires forall i :: 0 <= i < n ==> Step(current, sides[i]) in s.cost && s.cost[Step(current, sides[i])] <= s0.cost[current] + 1
    requires Progress(a, s0, s)
    ensures var r := Relax(q, s, current, Step(current, sides[n]));
      CostsLowered(s0, r) && current in r.cost && r.cost[current] == s0.cost[current] &&
      (forall i :: 0 <= i < n + 1 ==> Step(current, sides[i]) in r.cost && r.cost[Step(current, sides[i])] <= s0.cost[current] + 1) &&
      Progress(a, s0, r)
  {
    var next := Step(current, sides[n]);
    RelaxMeasure(a, q, s, current, sides[n]);
    RelaxLowers(q, s, current, next);
  }

  /** Leaving a neighbour that is already reached as cheaply keeps the loop's invariant with
      its side handled. */
  lemma SkipStep(a: Grid, q: Query, s0: Search, s: Search, current: Pos, sides: seq<Dir>, n: nat)
    requires ExpandInv(a, q, s0, s, current, sides, n) && n < |sides|
    requires var d := sides[n]; Step(current, d) in s.cost && s.cost[current] + 1 >= s.cost[Step(current, d)]
    ensures ExpandInv(a, q, s0, s, current, sides, n + 1)
  {
  }

  /** Once every open side of `current` is handled, `current` is expanded and every reached
      position is closed. */
  lemma ExpandDone(a: Grid, q: Query, s0: Search, s: Search, current: Pos, sides: seq<Dir>)
    requires ExpandInv(a, q, s0, s, current, sides, |sides|)
    requires forall d: Dir :: !Blocked(WallAt(a, current, d)) ==> d in sides
    ensures SearchInv(a, q, s) && AllClosed(a, q, s) && GoalPending(q, s) && Progress(a, s0, s)
  {
    forall d: Dir | !Blocked(WallAt(a, current, d))
      ensures Step(current, d) in s.cost && s.cost[Step(current, d)] <= s.cost[current] + 1
    {
      var i :| 0 <= i < |sides| && sides[i] == d;
    }
    assert Expanded(a, s, current);
  }

  // ---------------------------------------------------------------------------------------
  // Termination: the sum of the costs over the grid
  // ---------------------------------------------------------------------------------------

  /** The positions of a `w×h` grid, row by row. */
  function RowMajor(w: nat, h: nat): seq<Pos>
  {
    if h == 0 then [] else RowMajor(w, h - 1) + seq(w, i => (i, h - 1))
  }

  lemma {:induction false} InRowMajor(w: nat, h: nat, p: Pos)
    requires 0 <= p.0 < w && 0 <= p.1 < h
    ensures p in RowMajor(w, h)
  {
    var row := seq(w, i => (i, h - 1));
    if p.1 < h - 1 {
      InRowMajor(w, h - 1, p);
    } else {
      assert row[p.0] == p;
    }
    assert RowMajor(w, h) == RowMajor(w, h - 1) + row;
  }

  /** The sum of the non-negative costs of the positions of a list. */
  ghost function Total(cost: map<Pos, int>, list: seq<Pos>): nat
  {
    if list == [] then 0
    else (if list[0] in cost && cost[list[0]] > 0 then cost[list[0]] else 0) + Total(cost, list[1..])
  }

  /** Lowering one cost (to a non-negative value) never raises the sum, and lowers it when
      the position is listed. */
  lemma {:induction false} TotalLowers(cost: map<Pos, int>, list: seq<Pos>, p: Pos, v: int)
    requires p in cost && 0 <= v < cost[p]
    ensures Total(cost[p := v], list) <= Total(cost, list)
    ensures p in list ==> Total(cost[p := v], list) < Total(cost, list)
  {
    if list != [] {
      TotalLowers(cost, list[1..], p, v);
    }
  }

  /** Reaching one more position of the grid leaves fewer positions to reach. */
  lemma FewerLeft(a: Grid, before: set<Pos>, now: set<Pos>)
    requires before < now <= AllCells(a)
    ensures |AllCells(a) - now| < |AllCells(a) - before|
  {
    var n :| n in now && n !in before;
    assert AllCells(a) - now <= (AllCells(a) - before) - {n};
    SubsetSize(AllCells(a) - now, (AllCells(a) - before) - {n});
  }

  // ---------------------------------------------------------------------------------------
  // What the search establishes
  // ---------------------------------------------------------------------------------------

  /** A walk of n steps moves a Manhattan distance of at most n. */
  lemma {:induction false} WalkLength(a: Grid, p: Pos, w: seq<Dir>, r: Pos)
    requires IsWalk(a, p, w, r)
    ensures Manhattan(p, r) <= |w|
    decreases |w|
  {
    if w != [] {
      WalkLength(a, Step(p, w[0]), w[1..], r);
    }
  }

  /** Once every reached position is expanded, the reached positions are closed under open
      sides: every walk from a reached position ends at a reached position. */
  lemma {:induction false} ClosedReach(a: Grid, q: Query, s: Search, p: Pos, w: seq<Dir>, r: Pos)
    requires forall x :: x in s.cost ==> Expanded(a, s, x)
    requires p in s.cost && IsWalk(a, p, w, r)
    ensures r in s.cost
    decreases |w|
  {
    if w != [] {
      assert Expanded(a, s, p);
      ClosedReach(a, q, s, Step(p, w[0]), w[1..], r);
    }
  }

  /** Following a walk from a reached position p of cost at most c: either the walk's end is
      reached with cost at most c plus the walk's length, or some position k steps along it,
      of cost at most c + k, still has its current entry in the frontier, within Manhattan
      distance |w| - k of the end. */
  lemma {:induction false} FrontierOnWalk(a: Grid, q: Query, s: Search, p: Pos, c: int, w: seq<Dir>, r: Pos)
    returns (found: bool, x: Pos, k: nat)
    requires AllClosed(a, q, s)
    requires p in s.cost && s.cost[p] <= c && IsWalk(a, p, w, r)
    ensures !found ==> r in s.cost && s.cost[r] <= c + |w|
    ensures found ==>
      x in s.cost && (x, Prio(q, s, x)) in s.frontier && s.cost[x] <= c + k && k + Manhattan(x, r) <= |w|
    decreases |w|
  {
    if w == [] {
      found, x, k := false, p, 0;
    } else if (p, Prio(q, s, p)) in s.frontier {
      WalkLength(a, p, w, r);
      found, x, k := true, p, 0;
    } else {
      assert Expanded(a, s, p);
      var found', x', k' := FrontierOnWalk(a, q, s, Step(p, w[0]), c + 1, w[1..], r);
      found, x, k := found', x', k' + 1;
    }
  }

  /** When the head of the frontier is an entry for the goal and no position of the grid is
      penalised, the goal's cost is at most the length of any walk from the start to it. */
  lemma GoalCostIsShortest(a: Grid, q: Query, s: Search, w: seq<Dir>)
    requires SearchInv(a, q, s) && AllClosed(a, q, s)
    requires s.frontier != [] && s.frontier[0].0 == q.goal && !InBounds(a, q.last)
    requires IsWalk(a, q.start, w, q.goal)
    ensures q.goal in s.cost && s.cost[q.goal] <= |w|
  {
    var head := s.frontier[0];
    assert head in s.frontier;
    var found, x, k := FrontierOnWalk(a, q, s, q.start, 0, w, q.goal);
    if found {
      HeadIsLeast(s.frontier, (x, Prio(q, s, x)));
      assert x in AllCells(a);
    }
  }

  // ---------------------------------------------------------------------------------------
  // The search loop
  // ---------------------------------------------------------------------------------------

  /** The loop over the neighbours of `current` in `FindBestPath`: each open side, in
      `GetNeighbours` order, leads to `next`; a `next` not reached yet or reached at a higher
      cost gets the cost one more than `current`'s, a frontier entry with that cost plus the
      heuristic, and `current` as its parent. Afterwards `current` is expanded, and the
      search has reached a new position, lowered the sum of its costs, or left the frontier
      as it was. */
  method Expand(a: Grid, q: Query, current: Pos, frontier: seq<PrioritizedPos>, costSoFar: map<Pos, int>, cameFrom: map<Pos, Pos>)
    returns (frontier': seq<PrioritizedPos>, costSoFar': map<Pos, int>, cameFrom': map<Pos, Pos>)
    requires WellFormed(a) && InBounds(a, current) && current in costSoFar
    requires SearchInv(a, q, Search(frontier, costSoFar, cameFrom))
    requires ClosedExcept(a, q, Search(frontier, costSoFar, cameFrom), current)
    requires GoalPending(q, Search(frontier, costSoFar, cameFrom))
    ensures SearchInv(a, q, Search(frontier', costSoFar', cameFrom'))
    ensures AllClosed(a, q, Search(frontier', costSoFar', cameFrom'))
    ensures GoalPending(q, Search(frontier', costSoFar', cameFrom'))
    ensures Progress(a, Search(frontier, costSoFar, cameFrom), Search(frontier', costSoFar', cameFrom'))
  {
    ghost var s0 := Search(frontier, costSoFar, cameFrom);
    var neighbours := a[current.0, current.1].GetNeighbours();
    frontier', costSoFar', cameFrom' := frontier, costSoFar, cameFrom;
    ExpandStarts(a, q, s0, current, neighbours);
    for k := 0 to |neighbours|
      invariant ExpandInv(a, q, s0, Search(frontier', costSoFar', cameFrom'), current, neighbours, k)
    {
      ghost var s := Search(frontier', costSoFar', cameFrom');
      var d := neighbours[k];
      var next := Step(current, d);
      var newCost := costSoFar'[current] + 1;
      if next !in costSoFar' || newCost < costSoFar'[next] {
        RelaxStep(a, q, s0, s, current, neighbours, k);
        var priority := newCost + Heuristic(q, next);
        RelaxUpdates(q, s, current, next, newCost, priority);
        costSoFar' := costSoFar'[next := newCost];
        frontier' := SortedAdd(frontier', (next, priority));
        cameFrom' := cameFrom'[next := current];
      } else {
        SkipStep(a, q, s0, s, current, neighbours, k);
      }
    }
    ExpandDone(a, q, s0, Search(frontier', costSoFar', cameFrom'), current, neighbours);
  }

  /** One round of the search loop: pop the best entry; at the goal, stop (its cost is then
      the shortest, with no penalised cell in the maze); otherwise expand it, which keeps
      the loop invariant and lowers the loop's measure. */
  method SearchRound(a: Grid, q: Query, frontier: seq<PrioritizedPos>, costSoFar: map<Pos, int>, cameFrom: map<Pos, Pos>)
    returns (frontier': seq<PrioritizedPos>, costSoFar': map<Pos, int>, cameFrom': map<Pos, Pos>, found: bool)
    requires WellFormed(a) && frontier != [] && LoopInv(a, q, Search(frontier, costSoFar, cameFrom))
    ensures found ==> q.goal in cameFrom' && SearchInv(a, q, Search([], costSoFar', cameFrom'))
    ensures found && !InBounds(a, q.last) ==>
      forall w :: IsWalk(a, q.start, w, q.goal) ==> costSoFar'[q.goal] <= |w|
    ensures !found ==> LoopInv(a, q, Search(frontier', costSoFar', cameFrom'))
    ensures !found ==> Decreases(a, Search(frontier, costSoFar, cameFrom), Search(frontier', costSoFar', cameFrom'))
  {
    ghost var s := Search(frontier, costSoFar, cameFrom);
    PopKeeps(a, q, s);
    var current := frontier[0].0;
    if current == q.goal {
      forall w | IsWalk(a, q.start, w, q.goal) && !InBounds(a, q.last) ensures costSoFar[q.goal] <= |w| {
        GoalCostIsShortest(a, q, s, w);
      }
      return frontier[1..], costSoFar, cameFrom, true;
    }
    frontier', costSoFar', cameFrom' := Expand(a, q, current, frontier[1..], costSoFar, cameFrom);
    found := false;
    RoundDecreases(a, s, Search(frontier', costSoFar', cameFrom'));
  }

  /** The search loop of `FindBestPath`: pop the best entry, stop at the goal, otherwise
      expand it. When it ends, the reached cells are linked to their parents; the goal is
      reached exactly when some walk leads to it, and then, with no penalised cell in the
      maze, its cost is at most the length of every walk to it. */
  method RunSearch(a: Grid, q: Query) returns (costSoFar: map<Pos, int>, cameFrom: map<Pos, Pos>)
    requires WellFormed(a) && InBounds(a, q.start) && q.start != q.goal
    ensures SearchInv(a, q, Search([], costSoFar, cameFrom))
    ensures q.goal !in cameFrom ==> forall w :: !IsWalk(a, q.start, w, q.goal)
    ensures q.goal in cameFrom && !InBounds(a, q.last) ==>
      forall w :: IsWalk(a, q.start, w, q.goal) ==> costSoFar[q.goal] <= |w|
  {
    var frontier := SortedAdd([], (q.start, 0));
    costSoFar := map[q.start := 0];
    cameFrom := map[q.start := q.start];
    SearchStarts(a, q);
    assert frontier == [(q.start, 0)];
    while frontier != []
      invariant LoopInv(a, q, Search(frontier, costSoFar, cameFrom))
      decreases |AllCells(a) - costSoFar.Keys|, GridTotal(a, Search(frontier, costSoFar, cameFrom)), |frontier|
    {
      var found;
      frontier, costSoFar, cameFrom, found := SearchRound(a, q, frontier, costSoFar, cameFrom);
      if found {
        return;
      }
    }
    forall w | IsWalk(a, q.start, w, q.goal) ensures false {
      ExhaustedReach(a, q, Search(frontier, costSoFar, cameFrom), w, q.goal);
    }
  }

  /** The backtrack of `FindBestPath`: from the goal, follow `cameFrom` to the start,
      collecting the direction of each step, then reverse. The result is a walk from the
      start to the goal no longer than the goal's cost. */
  method Backtrack(a: Grid, q: Query, costSoFar: map<Pos, int>, cameFrom: map<Pos, Pos>) returns (path: seq<Dir>)
    requires SearchInv(a, q, Search([], costSoFar, cameFrom)) && q.goal in cameFrom
    ensures IsWalk(a, q.start, path, q.goal) && |path| <= costSoFar[q.goal]
  {
    ghost var s := Search([], costSoFar, cameFrom);
    var curPos := q.goal;
    var back: seq<Dir> := [];
    while curPos != q.start
      invariant curPos in costSoFar && IsWalk(a, curPos, Reversed(back), q.goal)
      invariant |back| + costSoFar[curPos] <= costSoFar[q.goal]
      decreases costSoFar[curPos]
    {
      WalkFromParent(a, q, s, curPos, Reversed(back), q.goal);
      var prev := cameFrom[curPos];
      var d: Dir := GetDir(prev, curPos);
      ReversedSnoc(back, d);
      back := back + [d];
      curPos := prev;
    }
    path := Reversed(back);
  }
}
