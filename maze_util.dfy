/**
 * The `Util` helpers of MazeData.cs: the Fisher–Yates `Shuffle` over the static direction
 * buffer, `SortedAdd` and the comparer that orders the search frontier.
 */
module MazeUtil {
  import opened MazeCells
  import opened MazeGrid
  import opened RandomTape

  // ---------------------------------------------------------------------------------------
  // Util.Shuffle
  // ---------------------------------------------------------------------------------------

  /** s with the elements at i and j exchanged. */
  function Swap<T>(s: seq<T>, i: nat, j: nat): (r: seq<T>)
    requires i < |s| && j < |s|
    ensures |r| == |s| && r[i] == s[j] && r[j] == s[i]
    ensures forall k :: 0 <= k < |s| && k != i && k != j ==> r[k] == s[k]
    ensures multiset(r) == multiset(s)
  {
    var r := s[i := s[j]][j := s[i]];
    assert multiset(s[i := s[j]]) == multiset(s) - multiset{s[i]} + multiset{s[j]};
    r
  }

  /** What the Fisher–Yates loop leaves once only the first n elements remain to be placed:
      each round draws k in [0, n), swaps elements n - 1 and k and places one fewer. */
  function FisherYates<T>(s: seq<T>, n: nat, tape: seq<nat>): seq<T>
    requires n <= |s|
    decreases n
  {
    if n <= 1 then s
    else FisherYates(Swap(s, n - 1, NextInt(tape) % n), n - 1, Rest(tape))
  }

  /** The integer tape left after Fisher–Yates has placed all but the first n elements. */
  function FisherYatesTape(n: nat, tape: seq<nat>): seq<nat>
    decreases n
  {
    if n <= 1 then tape else FisherYatesTape(n - 1, Rest(tape))
  }

  /** Fisher–Yates only permutes: the result holds the same elements as its input. */
  lemma {:induction false} FisherYatesPermutes<T>(s: seq<T>, n: nat, tape: seq<nat>)
    requires n <= |s|
    ensures |FisherYates(s, n, tape)| == |s|
    ensures multiset(FisherYates(s, n, tape)) == multiset(s)
    decreases n
  {
    if n > 1 {
      FisherYatesPermutes(Swap(s, n - 1, NextInt(tape) % n), n - 1, Rest(tape));
    }
  }

  /** `Util.Shuffle`: Fisher–Yates in place, drawing `Random.Range(0, n)` once per round. */
  method Shuffle<T>(a: array<T>, rng: Random)
    modifies a, rng
    ensures a[..] == FisherYates(old(a[..]), a.Length, old(rng.ints))
    ensures multiset(a[..]) == multiset(old(a[..]))
    ensures rng.ints == FisherYatesTape(a.Length, old(rng.ints))
    ensures rng.units == old(rng.units) && rng.orders == old(rng.orders)
  {
    var n := a.Length;
    while n > 1
      invariant 0 <= n <= a.Length
      invariant FisherYates(a[..], n, rng.ints) == FisherYates(old(a[..]), a.Length, old(rng.ints))
      invariant FisherYatesTape(n, rng.ints) == FisherYatesTape(a.Length, old(rng.ints))
      invariant rng.units == old(rng.units) && rng.orders == old(rng.orders)
    {
      ghost var before := a[..];
      var k := rng.Range(n);
      n := n - 1;
      var temp := a[n];
      a[n] := a[k];
      a[k] := temp;
      assert a[..] == Swap(before, n, k);
    }
    FisherYatesPermutes(old(a[..]), a.Length, old(rng.ints));
  }

  /** The static four-direction buffer that `ForEachDirRandomOrder` shuffles and then walks:
      one buffer shared by every caller, so a nested call reshuffles it under the feet of the
      iteration that made it. */
  class DirectionBuffer {
    const directions: array<Dir>

    /** The buffer has one slot per direction. That it holds an order of the four directions
        is kept outside the object: `AllDirsIsOrder` and `FisherYatesKeepsOrder`. */
    predicate Valid()
      reads this
    {
      directions.Length == 4
    }

    /** The buffer starts as North, East, South, West. */
    constructor ()
      ensures Valid() && fresh(directions)
      ensures directions[..] == AllDirs
    {
      directions := new Dir[4] [North, East, South, West];
      new;
      assert directions[..] == AllDirs;
      AllDirsIsOrder();
    }

    /** The shuffling half of `ForEachDirRandomOrder`: afterwards the buffer holds another
        order of the four directions. */
    method ShuffleDirections(rng: Random)
      requires Valid()
      modifies directions, rng
      ensures Valid()
      ensures directions[..] == FisherYates(old(directions[..]), directions.Length, old(rng.ints))
      ensures rng.ints == FisherYatesTape(directions.Length, old(rng.ints))
      ensures rng.units == old(rng.units) && rng.orders == old(rng.orders)
    {
      Shuffle(directions, rng);
    }
  }

  /** Shuffling an order of the four directions gives again such an order. */
  lemma FisherYatesKeepsOrder(s: seq<Dir>, tape: seq<nat>)
    requires IsOrder(s)
    ensures IsOrder(FisherYates(s, |s|, tape))
  {
    FisherYatesPermutes(s, |s|, tape);
    PermutationOfOrder(s, FisherYates(s, |s|, tape));
  }

  /** A permutation of an order of the four directions is again such an order. */
  lemma PermutationOfOrder(s: seq<Dir>, t: seq<Dir>)
    requires IsOrder(s) && multiset(t) == multiset(s)
    ensures IsOrder(t)
  {
    assert |t| == |multiset(t)| == |multiset(s)| == |s|;
    forall d: Dir ensures d in t {
      assert d in s;
      assert d in multiset(s);
    }
    forall i, j | 0 <= i < j < |t| ensures t[i] != t[j] {
      if t[i] == t[j] {
        var x := t[i];
        assert multiset(t)[x] >= 2 by {
          assert t == t[..i] + [t[i]] + t[i + 1..j] + [t[j]] + t[j + 1..];
        }
        DistinctCount(s, x);
      }
    }
  }

  /** The enumeration order is an order of the four directions. */
  lemma AllDirsIsOrder()
    ensures IsOrder(AllDirs)
  {
    forall d: Dir ensures d in AllDirs {
      assert d == AllDirs[d];
    }
  }

  /** In a sequence without repeats, every element occurs once. */
  lemma DistinctCount(s: seq<Dir>, x: Dir)
    requires forall i, j :: 0 <= i < j < |s| ==> s[i] != s[j]
    ensures multiset(s)[x] <= 1
  {
    if s != [] {
      DistinctCount(s[1..], x);
      assert s == [s[0]] + s[1..];
      if s[0] == x {
        assert x !in s[1..];
      }
    }
  }

  // ---------------------------------------------------------------------------------------
  // The A* frontier: PrioritizedPosComparer and SortedAdd
  // ---------------------------------------------------------------------------------------

  /** A frontier entry: a position and its priority. */
  type PrioritizedPos = ((int, int), int)

  /** `int.CompareTo`: the sign of a - b. */
  function CompareInt(a: int, b: int): (r: int)
    ensures r == -1 || r == 0 || r == 1
    ensures r < 0 <==> a < b
    ensures r == 0 <==> a == b
  {
    if a < b then -1 else if a > b then 1 else 0
  }

  /** `PrioritizedPosComparer.Compare`: priority first, then x, then y. */
  function ComparePrioritized(p1: PrioritizedPos, p2: PrioritizedPos): (r: int)
    ensures r == 0 <==> p1 == p2
    ensures r < 0 <==> p1.1 < p2.1 || (p1.1 == p2.1 && (p1.0.0 < p2.0.0 || (p1.0.0 == p2.0.0 && p1.0.1 < p2.0.1)))
  {
    var r := CompareInt(p1.1, p2.1);
    var r := if r == 0 then CompareInt(p1.0.0, p2.0.0) else r;
    if r == 0 then CompareInt(p1.0.1, p2.0.1) else r
  }

  /** p1 sorts strictly before p2. */
  predicate Before(p1: PrioritizedPos, p2: PrioritizedPos)
  {
    ComparePrioritized(p1, p2) < 0
  }

  /** The comparer is a strict total order: exactly one of before, equal, after holds, and
      before is transitive. */
  lemma ComparerIsTotalOrder(p1: PrioritizedPos, p2: PrioritizedPos, p3: PrioritizedPos)
    ensures Before(p1, p2) || p1 == p2 || Before(p2, p1)
    ensures !(Before(p1, p2) && Before(p2, p1))
    ensures Before(p1, p2) && Before(p2, p3) ==> Before(p1, p3)
    ensures ComparePrioritized(p1, p2) == -ComparePrioritized(p2, p1)
  {
  }

  /** A frontier list sorted strictly by the comparer (so it also has no duplicates). */
  ghost predicate SortedFrontier(s: seq<PrioritizedPos>)
  {
    forall i, j :: 0 <= i < j < |s| ==> Before(s[i], s[j])
  }

  /** `SortedAdd`: insert e into a sorted list at the place `BinarySearch` reports, which
      requires e to be absent (a present element is what the assertion rules out). */
  function SortedAdd(s: seq<PrioritizedPos>, e: PrioritizedPos): (r: seq<PrioritizedPos>)
    requires e !in s
    ensures |r| == |s| + 1
    ensures multiset(r) == multiset(s) + multiset{e}
  {
    if s == [] then [e]
    else if Before(e, s[0]) then [e] + s
    else
      assert s == [s[0]] + s[1..];
      [s[0]] + SortedAdd(s[1..], e)
  }

  /** Inserting into a sorted frontier keeps it sorted. */
  lemma {:induction false} SortedAddKeepsSorted(s: seq<PrioritizedPos>, e: PrioritizedPos)
    requires e !in s && SortedFrontier(s)
    ensures SortedFrontier(SortedAdd(s, e))
  {
    if s == [] {
    } else if Before(e, s[0]) {
      forall k | 0 <= k < |s| ensures Before(e, s[k]) {
        if k > 0 { ComparerIsTotalOrder(e, s[0], s[k]); }
      }
    } else {
      var t := SortedAdd(s[1..], e);
      assert s == [s[0]] + s[1..];
      assert SortedFrontier(s[1..]);
      SortedAddKeepsSorted(s[1..], e);
      assert Before(s[0], e) by { ComparerIsTotalOrder(e, s[0], e); }
      forall k | 0 <= k < |t| ensures Before(s[0], t[k]) {
        assert t[k] in multiset(t);
        assert t[k] in s[1..] || t[k] == e;
      }
    }
  }

  /** The head of a sorted frontier sorts before every other entry, so no entry has a lower
      priority. */
  lemma HeadIsLeast(s: seq<PrioritizedPos>, e: PrioritizedPos)
    requires SortedFrontier(s) && e in s
    ensures s[0] == e || Before(s[0], e)
    ensures s[0].1 <= e.1
  {
  }

  /** Removing the head keeps the list sorted. */
  lemma TailSorted(s: seq<PrioritizedPos>)
    requires SortedFrontier(s) && s != []
    ensures SortedFrontier(s[1..])
  {
  }
}
