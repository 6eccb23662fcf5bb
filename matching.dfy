/**
  The two searches over the lattice: the same-colour group of a cell (which
  pops when it has three or more members) and attachment to the ceiling
  (what is not attached falls). Both walk only through occupied cells that
  are not popping.
 */
module Matching {
  import opened HexGrid
  import opened Board

  /** Which occupied cells a search may pass through. */
  datatype Traversal = AnyColor | SameColor(color: int)

  /** Cell p may be visited: on the board, occupied, not popping, and of the right colour. */
  predicate Open(g: Grid, t: Traversal, p: Pos)
    requires WellFormed(g)
  {
    InBounds(p) && g[p.0][p.1].active && !g[p.0][p.1].isPopping &&
    (t.SameColor? ==> g[p.0][p.1].colorIndex == t.color)
  }

  /** q can be reached from p in at most k neighbour steps through open cells (p and q included). */
  ghost predicate ReachesIn(g: Grid, t: Traversal, p: Pos, q: Pos, k: nat)
    requires WellFormed(g)
    decreases k
  {
    Open(g, t, p) &&
    (p == q ||
     (k > 0 && exists i :: 0 <= i < |Neighbors(p.0, p.1)| && ReachesIn(g, t, Neighbors(p.0, p.1)[i], q, k - 1)))
  }

  /** q can be reached from p through open cells. */
  ghost predicate Reaches(g: Grid, t: Traversal, p: Pos, q: Pos)
    requires WellFormed(g)
  {
    exists k: nat :: ReachesIn(g, t, p, q, k)
  }

  /** The group a search seeded at `seed` should find. */
  ghost function Component(g: Grid, t: Traversal, seed: Pos): (m: set<Pos>)
    requires WellFormed(g)
    ensures forall p :: p in m <==> InBounds(p) && Reaches(g, t, seed, p)
  {
    set r, c | 0 <= r < ROWS && 0 <= c < COLS && Reaches(g, t, seed, (r, c)) :: (r, c)
  }

  /** q hangs from the ceiling: some open row-0 cell reaches it. */
  ghost predicate CeilingReachable(g: Grid, q: Pos)
    requires WellFormed(g)
  {
    exists c :: 0 <= c < COLS && Reaches(g, AnyColor, (0, c), q)
  }

  /** An occupied, non-popping cell that nothing attached to the ceiling reaches. */
  ghost predicate Detached(g: Grid, p: Pos)
    requires WellFormed(g)
  {
    Open(g, AnyColor, p) && !CeilingReachable(g, p)
  }

  ghost function DetachedCells(g: Grid): (s: set<Pos>)
    requires WellFormed(g)
    ensures forall p :: p in s <==> InBounds(p) && Detached(g, p)
  {
    set r, c | 0 <= r < ROWS && 0 <= c < COLS && Detached(g, (r, c)) :: (r, c)
  }

  /** `marked` holds exactly the detached cells that come before (r, c) in row-major order. */
  ghost predicate MarkedBefore(g: Grid, marked: set<Pos>, r: int, c: int)
    requires WellFormed(g)
  {
    forall p :: p in marked <==> InBounds(p) && (p.0 < r || (p.0 == r && p.1 < c)) && Detached(g, p)
  }

  /** The row-major scan takes in cell (r, c) exactly when it is detached. */
  lemma MarkedBeforeStep(g: Grid, marked: set<Pos>, r: int, c: int)
    requires WellFormed(g) && MarkedBefore(g, marked, r, c) && 0 <= r < ROWS && 0 <= c < COLS
    ensures (r, c) !in marked
    ensures Detached(g, (r, c)) ==> MarkedBefore(g, marked + {(r, c)}, r, c + 1)
    ensures !Detached(g, (r, c)) ==> MarkedBefore(g, marked, r, c + 1)
  {
  }

  /** The end of a row is the start of the next one. */
  lemma MarkedBeforeNextRow(g: Grid, marked: set<Pos>, r: int)
    requires WellFormed(g) && MarkedBefore(g, marked, r, COLS)
    ensures MarkedBefore(g, marked, r + 1, 0)
  {
  }

  /** A scan that has passed the last row has marked the detached cells. */
  lemma MarkedBeforeDone(g: Grid, marked: set<Pos>)
    requires WellFormed(g) && MarkedBefore(g, marked, ROWS, 0)
    ensures marked == DetachedCells(g)
  {
  }

  /**
    s is closed under open neighbours, except possibly at the cells of
    `pending` (the ones whose neighbours a search has not finished).
   */
  ghost predicate ClosedExcept(g: Grid, t: Traversal, s: set<Pos>, pending: set<Pos>)
    requires WellFormed(g)
  {
    forall x, i ::
      (x in s && x !in pending && 0 <= i < |Neighbors(x.0, x.1)| && Open(g, t, Neighbors(x.0, x.1)[i]))
      ==> Neighbors(x.0, x.1)[i] in s
  }

  /** The first i neighbours of x that are open are all in s. */
  ghost predicate NeighborsIn(g: Grid, t: Traversal, x: Pos, s: set<Pos>, i: int)
    requires WellFormed(g)
  {
    var n := Neighbors(x.0, x.1);
    forall j :: 0 <= j < i && j < |n| && Open(g, t, n[j]) ==> n[j] in s
  }

  /** Visiting the i-th neighbour extends the covered prefix by one. */
  lemma NeighborsInStep(g: Grid, t: Traversal, x: Pos, s: set<Pos>, s': set<Pos>, i: int)
    requires WellFormed(g) && NeighborsIn(g, t, x, s, i) && s <= s'
    requires 0 <= i < |Neighbors(x.0, x.1)|
    requires Open(g, t, Neighbors(x.0, x.1)[i]) ==> Neighbors(x.0, x.1)[i] in s'
    ensures NeighborsIn(g, t, x, s', i + 1)
  {
  }

  /** Every open neighbour of x is in s: a search has finished with x. */
  ghost predicate Expanded(g: Grid, t: Traversal, x: Pos, s: set<Pos>)
    requires WellFormed(g)
  {
    NeighborsIn(g, t, x, s, |Neighbors(x.0, x.1)|)
  }

  /** Growing s keeps x expanded. */
  lemma ExpandedGrows(g: Grid, t: Traversal, x: Pos, s: set<Pos>, s': set<Pos>)
    requires WellFormed(g) && s <= s' && Expanded(g, t, x, s)
    ensures Expanded(g, t, x, s')
  {
  }

  /**
    One round of a breadth-first search: the queue q grows to q' and the
    marked set s to s', and the cell at n - 1 has just been expanded; then
    the first n cells of q' are expanded.
   */
  lemma ExpandedPrefixGrows(g: Grid, t: Traversal, q: seq<Pos>, q': seq<Pos>, s: set<Pos>, s': set<Pos>, n: int)
    requires WellFormed(g) && s <= s' && 0 < n <= |q| <= |q'| && q'[..|q|] == q
    requires forall j :: 0 <= j < n - 1 ==> Expanded(g, t, q[j], s)
    requires Expanded(g, t, q[n - 1], s')
    ensures forall j :: 0 <= j < n ==> Expanded(g, t, q'[j], s')
  {
    forall j | 0 <= j < n
      ensures Expanded(g, t, q'[j], s')
    {
      assert q'[j] == q[j];
      if j < n - 1 {
        ExpandedGrows(g, t, q[j], s, s');
      }
    }
  }

  /** A set whose members are listed in q, all expanded, is closed. */
  lemma ExpandedQueueClosed(g: Grid, t: Traversal, s: set<Pos>, q: seq<Pos>)
    requires WellFormed(g)
    requires forall p :: p in s ==> p in q
    requires forall j :: 0 <= j < |q| ==> Expanded(g, t, q[j], s)
    ensures ClosedExcept(g, t, s, {})
  {
    forall x, i | x in s && 0 <= i < |Neighbors(x.0, x.1)| && Open(g, t, Neighbors(x.0, x.1)[i])
      ensures Neighbors(x.0, x.1)[i] in s
    {
      var j :| 0 <= j < |q| && q[j] == x;
      assert Expanded(g, t, q[j], s);
    }
  }

  /**
    A closed set holding every open cell of row 0 contains everything that
    hangs from the ceiling.
   */
  lemma ClosedHoldsCeiling(g: Grid, s: set<Pos>)
    requires WellFormed(g) && ClosedExcept(g, AnyColor, s, {})
    requires forall c :: 0 <= c < COLS && Open(g, AnyColor, (0, c)) ==> (0, c) in s
    ensures forall p :: InBounds(p) && CeilingReachable(g, p) ==> p in s
  {
    forall p | InBounds(p) && CeilingReachable(g, p)
      ensures p in s
    {
      var c :| 0 <= c < COLS && Reaches(g, AnyColor, (0, c), p);
      var k: nat :| ReachesIn(g, AnyColor, (0, c), p, k);
      ClosedContainsReach(g, AnyColor, s, (0, c), p, k);
    }
  }

  /** Once all open neighbours of x are in s, x need no longer be exempt. */
  lemma ClosedAfterExpand(g: Grid, t: Traversal, s: set<Pos>, pending: set<Pos>, x: Pos)
    requires WellFormed(g) && ClosedExcept(g, t, s, pending + {x})
    requires Expanded(g, t, x, s)
    ensures ClosedExcept(g, t, s, pending)
  {
  }

  // ---------------------------------------------------------------------
  // Facts about reachability

  /** Only open cells are reached. */
  lemma {:induction false} ReachesInOpen(g: Grid, t: Traversal, p: Pos, q: Pos, k: nat)
    requires WellFormed(g) && ReachesIn(g, t, p, q, k)
    ensures Open(g, t, q)
    decreases k
  {
    if p != q {
      var n := Neighbors(p.0, p.1);
      var i :| 0 <= i < |n| && ReachesIn(g, t, n[i], q, k - 1);
      ReachesInOpen(g, t, n[i], q, k - 1);
    }
  }

  /** An open cell reaches itself. */
  lemma ReachesSelf(g: Grid, t: Traversal, p: Pos)
    requires WellFormed(g) && Open(g, t, p)
    ensures Reaches(g, t, p, p)
  {
    assert ReachesIn(g, t, p, p, 0);
  }

  /** A step from an open cell to a neighbour that reaches q gives a walk to q. */
  lemma ReachesPrepend(g: Grid, t: Traversal, p: Pos, i: int, q: Pos)
    requires WellFormed(g) && Open(g, t, p)
    requires 0 <= i < |Neighbors(p.0, p.1)|
    requires Reaches(g, t, Neighbors(p.0, p.1)[i], q)
    ensures Reaches(g, t, p, q)
  {
    var k: nat :| ReachesIn(g, t, Neighbors(p.0, p.1)[i], q, k);
    assert ReachesIn(g, t, p, q, k + 1);
  }

  /** A walk to q extends by one step to an open neighbour of q. */
  lemma {:induction false} ReachesInAppend(g: Grid, t: Traversal, p: Pos, q: Pos, k: nat, i: int)
    requires WellFormed(g) && ReachesIn(g, t, p, q, k)
    requires 0 <= i < |Neighbors(q.0, q.1)| && Open(g, t, Neighbors(q.0, q.1)[i])
    ensures ReachesIn(g, t, p, Neighbors(q.0, q.1)[i], k + 1)
    decreases k
  {
    var nb := Neighbors(q.0, q.1)[i];
    if p == q {
      assert ReachesIn(g, t, nb, nb, k);
      assert ReachesIn(g, t, p, nb, k + 1);
    } else {
      var n := Neighbors(p.0, p.1);
      var j :| 0 <= j < |n| && ReachesIn(g, t, n[j], q, k - 1);
      ReachesInAppend(g, t, n[j], q, k - 1, i);
      assert ReachesIn(g, t, p, nb, k + 1);
    }
  }

  lemma ReachesAppend(g: Grid, t: Traversal, p: Pos, q: Pos, i: int)
    requires WellFormed(g) && Reaches(g, t, p, q)
    requires 0 <= i < |Neighbors(q.0, q.1)| && Open(g, t, Neighbors(q.0, q.1)[i])
    ensures Reaches(g, t, p, Neighbors(q.0, q.1)[i])
  {
    var k: nat :| ReachesIn(g, t, p, q, k);
    ReachesInAppend(g, t, p, q, k, i);
  }

  /** Walks compose. */
  lemma {:induction false} ReachesInTrans(g: Grid, t: Traversal, p: Pos, q: Pos, x: Pos, k: nat, l: nat)
    requires WellFormed(g) && ReachesIn(g, t, p, q, k) && ReachesIn(g, t, q, x, l)
    ensures ReachesIn(g, t, p, x, k + l)
    decreases k
  {
    if p == q {
      ReachesInMono(g, t, q, x, l, k + l);
    } else {
      var n := Neighbors(p.0, p.1);
      var j :| 0 <= j < |n| && ReachesIn(g, t, n[j], q, k - 1);
      ReachesInTrans(g, t, n[j], q, x, k - 1, l);
      assert ReachesIn(g, t, p, x, k + l);
    }
  }

  /** A walk of at most l steps is a walk of at most m steps for m >= l. */
  lemma {:induction false} ReachesInMono(g: Grid, t: Traversal, p: Pos, x: Pos, l: nat, m: nat)
    requires WellFormed(g) && ReachesIn(g, t, p, x, l) && l <= m
    ensures ReachesIn(g, t, p, x, m)
    decreases l
  {
    if p != x {
      var n := Neighbors(p.0, p.1);
      var j :| 0 <= j < |n| && ReachesIn(g, t, n[j], x, l - 1);
      ReachesInMono(g, t, n[j], x, l - 1, m - 1);
    }
  }

  /** Walks reverse, because adjacency is symmetric. */
  lemma {:induction false} ReachesInSymmetric(g: Grid, t: Traversal, p: Pos, q: Pos, k: nat)
    requires WellFormed(g) && ReachesIn(g, t, p, q, k)
    ensures ReachesIn(g, t, q, p, k)
    decreases k
  {
    if p == q {
      ReachesInOpen(g, t, p, q, k);
    } else {
      var n := Neighbors(p.0, p.1);
      var j :| 0 <= j < |n| && ReachesIn(g, t, n[j], q, k - 1);
      ReachesInSymmetric(g, t, n[j], q, k - 1);
      NeighborsSymmetric(p.0, p.1, n[j]);
      var back := NeighborIndex(n[j].0, n[j].1, p);
      ReachesInAppend(g, t, q, n[j], k - 1, back);
    }
  }

  /**
    A set closed under open neighbours contains every cell reachable from
    any of its members.
   */
  lemma {:induction false} ClosedContainsReach(g: Grid, t: Traversal, s: set<Pos>, p: Pos, q: Pos, k: nat)
    requires WellFormed(g) && ClosedExcept(g, t, s, {}) && p in s && ReachesIn(g, t, p, q, k)
    ensures q in s
    decreases k
  {
    if p != q {
      var n := Neighbors(p.0, p.1);
      var i :| 0 <= i < |n| && ReachesIn(g, t, n[i], q, k - 1);
      assert Open(g, t, n[i]);
      ClosedContainsReach(g, t, s, n[i], q, k - 1);
    }
  }

  /**
    The characterisation a search proves against: a set of cells reached
    from the seed that contains the seed when it is open and is closed under
    open neighbours is exactly the seed's group.
   */
  lemma ClosedReachedIsComponent(g: Grid, t: Traversal, seed: Pos, s: set<Pos>)
    requires WellFormed(g) && InBounds(seed)
    requires forall p :: p in s ==> InBounds(p) && Reaches(g, t, seed, p)
    requires Open(g, t, seed) ==> seed in s
    requires ClosedExcept(g, t, s, {})
    ensures s == Component(g, t, seed)
  {
    forall q | q in Component(g, t, seed)
      ensures q in s
    {
      var k: nat :| ReachesIn(g, t, seed, q, k);
      ClosedContainsReach(g, t, s, seed, q, k);
    }
  }

  // ---------------------------------------------------------------------
  // Facts about the group of a cell

  /** Every member of a group is open: occupied, not popping and of the group's colour. */
  lemma ComponentMembersOpen(g: Grid, t: Traversal, seed: Pos, p: Pos)
    requires WellFormed(g) && p in Component(g, t, seed)
    ensures Open(g, t, p) && Open(g, t, seed)
  {
    var k: nat :| ReachesIn(g, t, seed, p, k);
    ReachesInOpen(g, t, seed, p, k);
  }

  /** A seed that does not qualify has an empty group. */
  lemma ComponentOfClosedSeed(g: Grid, t: Traversal, seed: Pos)
    requires WellFormed(g) && !Open(g, t, seed)
    ensures Component(g, t, seed) == {}
  {
    forall p | p in Component(g, t, seed) ensures false {
      ComponentMembersOpen(g, t, seed, p);
    }
  }

  /** A qualifying seed is in its own group. */
  lemma ComponentHasSeed(g: Grid, t: Traversal, seed: Pos)
    requires WellFormed(g) && Open(g, t, seed)
    ensures seed in Component(g, t, seed)
  {
    ReachesSelf(g, t, seed);
  }

  /** No qualifying neighbour of a member is left out of a group. */
  lemma ComponentClosed(g: Grid, t: Traversal, seed: Pos, p: Pos, i: int)
    requires WellFormed(g) && p in Component(g, t, seed)
    requires 0 <= i < |Neighbors(p.0, p.1)| && Open(g, t, Neighbors(p.0, p.1)[i])
    ensures Neighbors(p.0, p.1)[i] in Component(g, t, seed)
  {
    ReachesAppend(g, t, seed, p, i);
  }

  /** Seeding the search at any member of a group finds the same group. */
  lemma ComponentSameFromMember(g: Grid, t: Traversal, seed: Pos, p: Pos)
    requires WellFormed(g) && p in Component(g, t, seed)
    ensures Component(g, t, p) == Component(g, t, seed)
  {
    var k: nat :| ReachesIn(g, t, seed, p, k);
    forall x | x in Component(g, t, p)
      ensures x in Component(g, t, seed)
    {
      var l: nat :| ReachesIn(g, t, p, x, l);
      ReachesInTrans(g, t, seed, p, x, k, l);
    }
    forall x | x in Component(g, t, seed)
      ensures x in Component(g, t, p)
    {
      var l: nat :| ReachesIn(g, t, seed, x, l);
      ReachesInSymmetric(g, t, seed, p, k);
      ReachesInTrans(g, t, p, seed, x, k, l);
    }
  }

  // ---------------------------------------------------------------------
  // Facts about the ceiling pass

  /**
    The state of the ceiling pass after `head` rounds: s holds exactly the
    queued cells, all of them standing and attached; every standing cell of
    row 0 is among them; and the first `head` queued cells are expanded.
   */
  ghost predicate CeilingSearch(g: Grid, s: set<Pos>, q: seq<Pos>, head: int)
    requires WellFormed(g)
  {
    0 <= head <= |q| &&
    (forall p :: p in s <==> p in q) &&
    (forall p :: p in s ==> Open(g, AnyColor, p) && CeilingReachable(g, p)) &&
    (forall c :: 0 <= c < COLS && Open(g, AnyColor, (0, c)) ==> (0, c) in s) &&
    (forall j :: 0 <= j < head ==> Expanded(g, AnyColor, q[j], s))
  }

  /** When every queued cell is expanded, the pass has found exactly the attached cells. */
  lemma CeilingSearchDone(g: Grid, s: set<Pos>, q: seq<Pos>)
    requires WellFormed(g) && CeilingSearch(g, s, q, |q|)
    ensures forall p :: p in s <==> InBounds(p) && CeilingReachable(g, p)
  {
    ExpandedQueueClosed(g, AnyColor, s, q);
    ClosedHoldsCeiling(g, s);
  }

  /** Every cell on a walk from the ceiling hangs from the ceiling. */
  lemma CeilingReachableStep(g: Grid, q: Pos, i: int)
    requires WellFormed(g) && CeilingReachable(g, q)
    requires 0 <= i < |Neighbors(q.0, q.1)| && Open(g, AnyColor, Neighbors(q.0, q.1)[i])
    ensures CeilingReachable(g, Neighbors(q.0, q.1)[i])
  {
    var c :| 0 <= c < COLS && Reaches(g, AnyColor, (0, c), q);
    ReachesAppend(g, AnyColor, (0, c), q, i);
  }

  /**
    Marking the detached cells as popping does not detach anything else: a
    walk through attached cells survives the marking.
   */
  lemma {:induction false} AttachedWalkSurvives(g: Grid, p: Pos, q: Pos, k: nat)
    requires WellFormed(g) && CeilingReachable(g, p) && ReachesIn(g, AnyColor, p, q, k)
    ensures ReachesIn(MarkPopping(g, DetachedCells(g)), AnyColor, p, q, k)
    decreases k
  {
    var g' := MarkPopping(g, DetachedCells(g));
    assert Open(g', AnyColor, p);
    if p != q {
      var n := Neighbors(p.0, p.1);
      var i :| 0 <= i < |n| && ReachesIn(g, AnyColor, n[i], q, k - 1);
      assert Open(g, AnyColor, n[i]);
      CeilingReachableStep(g, p, i);
      AttachedWalkSurvives(g, n[i], q, k - 1);
      assert ReachesIn(g', AnyColor, p, q, k);
    }
  }

  /**
    The ceiling pass is idempotent: after the detached cells are marked as
    popping, a second pass finds nothing detached.
   */
  lemma DropIdempotent(g: Grid)
    requires WellFormed(g)
    ensures DetachedCells(MarkPopping(g, DetachedCells(g))) == {}
  {
    var g' := MarkPopping(g, DetachedCells(g));
    forall q | q in DetachedCells(g')
      ensures false
    {
      assert Open(g', AnyColor, q);
      assert Open(g, AnyColor, q) && q !in DetachedCells(g);
      var c :| 0 <= c < COLS && Reaches(g, AnyColor, (0, c), q);
      var k: nat :| ReachesIn(g, AnyColor, (0, c), q, k);
      assert Open(g, AnyColor, (0, c)) by { ReachesInOpen(g, AnyColor, (0, c), (0, c), 0); }
      assert ReachesIn(g, AnyColor, (0, c), (0, c), 0);
      AttachedWalkSurvives(g, (0, c), q, k);
    }
  }

  /** Cells attached to the ceiling are never detached, and row-0 open cells are attached. */
  lemma CeilingRowAttached(g: Grid, c: int)
    requires WellFormed(g) && 0 <= c < COLS && Open(g, AnyColor, (0, c))
    ensures CeilingReachable(g, (0, c)) && !Detached(g, (0, c))
  {
    ReachesSelf(g, AnyColor, (0, c));
  }

  /**
    Marking the detached cells leaves no standing bubble exactly when the
    top row holds none: then nothing is attached to the ceiling.
   */
  lemma DropClearsBoard(g: Grid)
    requires WellFormed(g)
    ensures NoStanding(MarkPopping(g, DetachedCells(g))) <==>
      forall c :: 0 <= c < COLS ==> !Open(g, AnyColor, (0, c))
  {
    var h: Grid := MarkPopping(g, DetachedCells(g));
    if forall c :: 0 <= c < COLS ==> !Open(g, AnyColor, (0, c)) {
      forall r, c | 0 <= r < ROWS && 0 <= c < COLS && h[r][c].active
        ensures h[r][c].isPopping
      {
        forall c' | 0 <= c' < COLS
          ensures !Reaches(g, AnyColor, (0, c'), (r, c))
        {
          assert !Open(g, AnyColor, (0, c'));
        }
      }
    } else {
      var c :| 0 <= c < COLS && Open(g, AnyColor, (0, c));
      CeilingRowAttached(g, c);
      assert h[0][c].active && !h[0][c].isPopping;
    }
  }
}
