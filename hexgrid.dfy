/**
  The board's lattice: a fixed ROWS x COLS grid whose odd rows sit half a cell
  to the right, so that every cell touches up to six others.
 */
module HexGrid {

  const ROWS: int := 20
  const COLS: int := 16

  /** A cell address (row, column). */
  type Pos = (int, int)

  predicate InBounds(p: Pos) {
    0 <= p.0 < ROWS && 0 <= p.1 < COLS
  }

  /** Every address of the board. */
  function AllCells(): (s: set<Pos>)
    ensures forall p :: p in s <==> InBounds(p)
  {
    set r, c | 0 <= r < ROWS && 0 <= c < COLS :: (r, c)
  }

  /**
    The set of all addresses, handed to a search as the universe its
    termination measure counts down in (without the set's definition).
   */
  lemma BoardCells() returns (u: set<Pos>)
    ensures forall p {:trigger p in u} :: p in u <==> InBounds(p)
  {
    u := AllCells();
  }

  /**
    The six (row, column) offsets of a cell in row r: left, right, the two
    cells above and the two below. Which two columns lie above and below
    depends on the parity of the row.
   */
  function Offsets(r: int): seq<Pos> {
    var offset := RowShift(r);
    [(0, -1), (0, 1), (-1, -1 + offset), (-1, offset), (1, -1 + offset), (1, offset)]
  }

  /** The targets of `dirs` from (r, c) that fall on the board, in table order. */
  function InBoundsTargets(r: int, c: int, dirs: seq<Pos>): (n: seq<Pos>)
    ensures |n| <= |dirs|
    ensures forall i :: 0 <= i < |n| ==> InBounds(n[i])
  {
    if dirs == [] then []
    else
      var p := (r + dirs[0].0, c + dirs[0].1);
      (if InBounds(p) then [p] else []) + InBoundsTargets(r, c, dirs[1..])
  }

  /** A cell is a target exactly when it is on the board and its offset is in the table. */
  lemma {:induction false} InBoundsTargetsExactly(r: int, c: int, dirs: seq<Pos>, p: Pos)
    ensures p in InBoundsTargets(r, c, dirs) <==> InBounds(p) && (p.0 - r, p.1 - c) in dirs
    decreases |dirs|
  {
    if dirs != [] {
      InBoundsTargetsExactly(r, c, dirs[1..], p);
      assert dirs == [dirs[0]] + dirs[1..];
    }
  }

  /**
    The neighbours of (r, c): the offset table applied to (r, c), with the
    off-board targets dropped (there is no wrap-around).
   */
  function Neighbors(r: int, c: int): (n: seq<Pos>)
    ensures |n| <= 6
    ensures forall i :: 0 <= i < |n| ==> InBounds(n[i])
  {
    InBoundsTargets(r, c, Offsets(r))
  }

  /** The neighbours of (r, c) are exactly the on-board targets of its offset table. */
  lemma NeighborsExactly(r: int, c: int, p: Pos)
    ensures p in Neighbors(r, c) <==> InBounds(p) && (p.0 - r, p.1 - c) in Offsets(r)
  {
    InBoundsTargetsExactly(r, c, Offsets(r), p);
  }

  /** No cell is its own neighbour. */
  lemma NeighborsIrreflexive(r: int, c: int)
    ensures (r, c) !in Neighbors(r, c)
  {
    NeighborsExactly(r, c, (r, c));
  }

  /** 0 on even rows, 1 on odd rows: how far the row is shifted right. */
  function RowShift(r: int): int {
    if r % 2 == 0 then 0 else 1
  }

  /**
    The offset table has six distinct entries, none of them (0, 0), each at
    most one row away: those in the same row are one column away, and those
    in the rows above and below land on the two columns the row's shift
    selects.
   */
  lemma OffsetsShape(r: int)
    ensures |Offsets(r)| == 6 && forall i, j :: 0 <= i < j < 6 ==> Offsets(r)[i] != Offsets(r)[j]
    ensures forall i :: 0 <= i < 6 ==> -1 <= Offsets(r)[i].0 <= 1 && Offsets(r)[i] != (0, 0)
    ensures forall i :: 0 <= i < 6 && Offsets(r)[i].0 == 0 ==> Offsets(r)[i].1 == -1 || Offsets(r)[i].1 == 1
    ensures forall i :: 0 <= i < 6 && Offsets(r)[i].0 != 0 ==>
      Offsets(r)[i].1 == RowShift(r) - 1 || Offsets(r)[i].1 == RowShift(r)
  {
  }

  /** Vertically adjacent rows have opposite shifts. */
  lemma RowShiftFlips(r: int)
    ensures RowShift(r) == 0 || RowShift(r) == 1
    ensures RowShift(r + 1) == 1 - RowShift(r) && RowShift(r - 1) == 1 - RowShift(r)
  {
  }

  /** Reversing an offset of row r gives an offset of the row it leads to. */
  lemma OffsetReversed(r: int, d: Pos, r': int)
    requires d in Offsets(r) && r' == r + d.0
    ensures (-d.0, -d.1) in Offsets(r')
  {
    RowShiftFlips(r);
  }

  /** Adjacency is symmetric: whoever is my neighbour has me as a neighbour. */
  lemma NeighborsSymmetric(r: int, c: int, q: Pos)
    requires InBounds((r, c))
    requires q in Neighbors(r, c)
    ensures (r, c) in Neighbors(q.0, q.1)
  {
    BackOffset(r, c, q);
    NeighborOfOffset(q.0, q.1, (r, c));
  }

  /** The way back from a neighbour is in that neighbour's offset table. */
  lemma BackOffset(r: int, c: int, q: Pos)
    requires q in Neighbors(r, c)
    ensures (r - q.0, c - q.1) in Offsets(q.0)
  {
    var d := (q.0 - r, q.1 - c);
    NeighborsExactly(r, c, q);
    OffsetReversed(r, d, q.0);
  }

  /** An on-board target of the offset table is a neighbour. */
  lemma NeighborOfOffset(r: int, c: int, p: Pos)
    requires InBounds(p) && (p.0 - r, p.1 - c) in Offsets(r)
    ensures p in Neighbors(r, c)
  {
    NeighborsExactly(r, c, p);
  }

  /** The index at which a neighbour appears in the neighbour list. */
  lemma NeighborIndex(r: int, c: int, q: Pos) returns (i: nat)
    requires q in Neighbors(r, c)
    ensures i < |Neighbors(r, c)| && Neighbors(r, c)[i] == q
  {
    var n := Neighbors(r, c);
    i :| 0 <= i < |n| && n[i] == q;
  }
}
