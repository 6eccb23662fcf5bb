/**
  The counters of a game: points for popped and dropped bubbles, and the
  miss counter that injects a new row after MAX_MISSES shots that pop
  nothing since the counter was last refilled; a shot that pops leaves the
  counter as it is, so the misses need not be consecutive.
 */
module Scoring {

  /** How many shots that pop nothing bring down a new row. */
  const MAX_MISSES: int := 5

  /** A group pops when it has at least this many members. */
  const MATCH_THRESHOLD: int := 3

  const POINTS_PER_POP: int := 10
  const POINTS_PER_DROP: int := 20

  /** The miss counter after one shot that pops nothing. */
  function CounterAfterMiss(k: int): (k': int)
    requires 1 <= k <= MAX_MISSES
    ensures 1 <= k' <= MAX_MISSES
    ensures k' == k - 1 || (k == 1 && k' == MAX_MISSES)
  {
    if k - 1 <= 0 then MAX_MISSES else k - 1
  }

  /** Whether that miss injects a row: the decremented counter reached zero. */
  predicate MissInjectsRow(k: int) {
    k - 1 <= 0
  }

  /** The counter and the number of injected rows after n misses in a row, from counter k. */
  function MissRun(k: int, n: nat): (res: (int, nat))
    requires 1 <= k <= MAX_MISSES
    ensures 1 <= res.0 <= MAX_MISSES
  {
    if n == 0 then (k, 0)
    else
      var prev := MissRun(k, n - 1);
      (CounterAfterMiss(prev.0), prev.1 + (if MissInjectsRow(prev.0) then 1 else 0))
  }

  /**
    From a full counter, n misses in a row inject n / MAX_MISSES rows and
    leave the counter at MAX_MISSES - n % MAX_MISSES: the counter wraps to
    MAX_MISSES exactly at the MAX_MISSES-th miss and never reaches zero.
   */
  lemma {:induction false} MissRunFromFull(n: nat)
    ensures MissRun(MAX_MISSES, n) == (MAX_MISSES - n % MAX_MISSES, n / MAX_MISSES)
  {
    if n > 0 {
      MissRunFromFull(n - 1);
    }
  }

  /** In particular MAX_MISSES misses from a full counter inject exactly one row and refill the counter. */
  lemma FullRoundOfMisses()
    ensures MissRun(MAX_MISSES, MAX_MISSES) == (MAX_MISSES, 1)
  {
    MissRunFromFull(MAX_MISSES);
  }

  /** Points for a popped group of the given size. */
  function PopPoints(size: nat): (p: nat)
    ensures size >= MATCH_THRESHOLD ==> p >= POINTS_PER_POP * MATCH_THRESHOLD
  {
    POINTS_PER_POP * size
  }

  /** Points for the cells that fell after a pop; none when nothing fell. */
  function DropPoints(dropped: nat): (p: nat)
    ensures p == 0 <==> dropped == 0
  {
    POINTS_PER_DROP * dropped
  }
}
