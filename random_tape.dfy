/**
 * The random number generators of both engines, as explicit tapes of draws chosen by the
 * caller: `UnityEngine.Random.Range(0, n)` and C's `rand()` read the integer tape,
 * `UnityEngine.Random.Range(0.0f, 1.0f)` reads the tape of values in [0, 1], and
 * `std::shuffle` with a Mersenne twister reads the tape of direction orders. An exhausted
 * tape yields a fixed default draw.
 */
module RandomTape {
  import opened MazeCells

  /** A draw of `Random.Range(0.0f, 1.0f)`: both ends are included. */
  type Unit = r: real | 0.0 <= r <= 1.0

  /** The next draw of a tape, 0 once it is exhausted. */
  function NextInt(s: seq<nat>): nat { if s == [] then 0 else s[0] }

  /** The next value draw of a tape, 0.0 once it is exhausted. */
  function NextUnit(s: seq<Unit>): Unit { if s == [] then 0.0 else s[0] }

  /** The next order draw of a tape, enumeration order once it is exhausted. */
  function NextOrder(s: seq<Order>): Order { if s == [] then [North, East, South, West] else s[0] }

  /** The tape after one draw. */
  function Rest<T>(s: seq<T>): seq<T> { if s == [] then [] else s[1..] }

  /** The tape after k draws. */
  function Skip<T>(s: seq<T>, k: nat): (r: seq<T>)
    ensures |r| == if k <= |s| then |s| - k else 0
  {
    if k <= |s| then s[k..] else []
  }

  /** One more draw after k draws is k + 1 draws, and draws accumulate. */
  lemma SkipMore<T>(s: seq<T>, k: nat, m: nat)
    ensures Rest(Skip(s, k)) == Skip(s, k + 1)
    ensures Skip(Skip(s, k), m) == Skip(s, k + m)
  {
  }

  class Random {
    var ints: seq<nat>
    var units: seq<Unit>
    var orders: seq<Order>

    constructor (ints: seq<nat>, units: seq<Unit>, orders: seq<Order>)
      ensures this.ints == ints && this.units == units && this.orders == orders
    {
      this.ints := ints;
      this.units := units;
      this.orders := orders;
    }

    /** `UnityEngine.Random.Range(0, n)`: an integer in [0, n). */
    method Range(n: nat) returns (k: nat)
      requires 0 < n
      modifies this
      ensures k < n && k == NextInt(old(ints)) % n
      ensures ints == Rest(old(ints)) && units == old(units) && orders == old(orders)
    {
      k := NextInt(ints) % n;
      ints := Rest(ints);
    }

    /** C's `rand()`: the next raw integer. */
    method Rand() returns (r: nat)
      modifies this
      ensures r == NextInt(old(ints))
      ensures ints == Rest(old(ints)) && units == old(units) && orders == old(orders)
    {
      r := NextInt(ints);
      ints := Rest(ints);
    }

    /** `UnityEngine.Random.Range(0.0f, 1.0f)`: a value in [0, 1]. */
    method Value() returns (v: Unit)
      modifies this
      ensures v == NextUnit(old(units))
      ensures units == Rest(old(units)) && ints == old(ints) && orders == old(orders)
    {
      v := NextUnit(units);
      units := Rest(units);
    }

    /** `std::shuffle` of the four directions: one order of them. */
    method Shuffled() returns (o: Order)
      modifies this
      ensures o == NextOrder(old(orders))
      ensures orders == Rest(old(orders)) && ints == old(ints) && units == old(units)
    {
      o := NextOrder(orders);
      orders := Rest(orders);
    }
  }
}
