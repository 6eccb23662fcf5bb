/**
  The contents of the board as a value: a ROWS x COLS table of cells, the
  whole-board transformations the game applies to it, and the pending
  pop-animation records that gate a popping cell's removal.
 */
module Board {
  import opened HexGrid

  /**
    One lattice position. `colorIndex` is meaningful only when `active`;
    a popping cell still occupies its place but is out of every search.
   */
  datatype Cell = Cell(active: bool, colorIndex: int, isPopping: bool)

  type Grid = seq<seq<Cell>>

  /** Rows filled when a game starts. */
  const PREFILLED_ROWS: int := 6

  /** The row whose occupation after a row injection ends the game. */
  const DANGER_ROW: int := ROWS - 3

  predicate WellFormed(g: Grid) {
    |g| == ROWS && forall r :: 0 <= r < ROWS ==> |g[r]| == COLS
  }

  /** Every cell carries a colour index of the palette. */
  predicate ColorsInPalette(g: Grid, paletteSize: int)
    requires WellFormed(g)
  {
    forall r, c :: 0 <= r < ROWS && 0 <= c < COLS ==> 0 <= g[r][c].colorIndex < paletteSize
  }

  /** A list of `COLS` colour draws from the palette. */
  predicate ColorRow(colors: seq<int>, paletteSize: int) {
    |colors| == COLS && forall c :: 0 <= c < COLS ==> 0 <= colors[c] < paletteSize
  }

  /** A ROWS x COLS table of colour draws from the palette, one per cell. */
  predicate ColorTable(colors: seq<seq<int>>, paletteSize: int) {
    |colors| == ROWS && forall r :: 0 <= r < ROWS ==> ColorRow(colors[r], paletteSize)
  }

  /** Two boards with the same cells are the same board. */
  lemma GridExt(a: Grid, b: Grid)
    requires WellFormed(a) && WellFormed(b)
    requires forall r, c :: 0 <= r < ROWS && 0 <= c < COLS ==> a[r][c] == b[r][c]
    ensures a == b
  {
    forall r | 0 <= r < ROWS
      ensures a[r] == b[r]
    {
      assert forall c :: 0 <= c < COLS ==> a[r][c] == b[r][c];
    }
  }

  /** The board of a new game: the first PREFILLED_ROWS rows occupied, colours drawn for every cell. */
  function InitialGrid(colors: seq<seq<int>>): (g: Grid)
    requires |colors| == ROWS && forall r :: 0 <= r < ROWS ==> |colors[r]| == COLS
    ensures WellFormed(g)
    ensures forall r, c :: 0 <= r < ROWS && 0 <= c < COLS ==>
      g[r][c].active == (r < PREFILLED_ROWS) && g[r][c].colorIndex == colors[r][c] && !g[r][c].isPopping
  {
    seq(ROWS, r requires 0 <= r < ROWS =>
      seq(COLS, c requires 0 <= c < COLS => Cell(r < PREFILLED_ROWS, colors[r][c], false)))
  }

  /** The board with cell p replaced by x. */
  function SetCell(g: Grid, p: Pos, x: Cell): (g': Grid)
    requires WellFormed(g) && InBounds(p)
    ensures WellFormed(g')
  {
    g[p.0 := g[p.0][p.1 := x]]
  }

  /** A whole-board transformation, applied to every cell independently. */
  datatype Edit =
    | MarkAll(marked: set<Pos>)       // the cells of `marked` start popping
    | ClearAll(cleared: set<Pos>)     // the cells of `cleared` are emptied
    | ShiftAll(refill: seq<int>)      // every row moves down, row 0 is refilled

  predicate EditFits(e: Edit) {
    e.ShiftAll? ==> |e.refill| == COLS
  }

  /** What cell (r, c) of g becomes under e. */
  function EditCell(g: Grid, e: Edit, r: int, c: int): Cell
    requires WellFormed(g) && EditFits(e) && 0 <= r < ROWS && 0 <= c < COLS
  {
    match e
    case MarkAll(s) => if (r, c) in s then g[r][c].(isPopping := true) else g[r][c]
    case ClearAll(s) => if (r, c) in s then g[r][c].(active := false, isPopping := false) else g[r][c]
    case ShiftAll(refill) =>
      if r == 0 then g[0][c].(active := true, colorIndex := refill[c])
      else g[r][c].(active := g[r - 1][c].active, colorIndex := g[r - 1][c].colorIndex)
  }

  /** The first n cells of row r of g under e. */
  function EditRow(g: Grid, e: Edit, r: int, n: int): (row: seq<Cell>)
    requires WellFormed(g) && EditFits(e) && 0 <= r < ROWS && 0 <= n <= COLS
    ensures |row| == n
    ensures forall c :: 0 <= c < n ==> row[c] == EditCell(g, e, r, c)
  {
    if n == 0 then [] else EditRow(g, e, r, n - 1) + [EditCell(g, e, r, n - 1)]
  }

  /** The first n rows of g under e. */
  function EditRows(g: Grid, e: Edit, n: int): (rows: Grid)
    requires WellFormed(g) && EditFits(e) && 0 <= n <= ROWS
    ensures |rows| == n
    ensures forall r :: 0 <= r < n ==> rows[r] == EditRow(g, e, r, COLS)
  {
    if n == 0 then [] else EditRows(g, e, n - 1) + [EditRow(g, e, n - 1, COLS)]
  }

  /** The board with every cell of s marked as popping (and nothing else changed). */
  function MarkPopping(g: Grid, s: set<Pos>): (g': Grid)
    requires WellFormed(g)
    ensures WellFormed(g')
    ensures forall r, c :: 0 <= r < ROWS && 0 <= c < COLS ==>
      g'[r][c] == if (r, c) in s then g[r][c].(isPopping := true) else g[r][c]
  {
    EditRows(g, MarkAll(s), ROWS)
  }

  /** The board with every cell of s emptied and no longer popping (colours kept). */
  function ClearCells(g: Grid, s: set<Pos>): (g': Grid)
    requires WellFormed(g)
    ensures WellFormed(g')
    ensures forall r, c :: 0 <= r < ROWS && 0 <= c < COLS ==>
      g'[r][c] == if (r, c) in s then g[r][c].(active := false, isPopping := false) else g[r][c]
  {
    EditRows(g, ClearAll(s), ROWS)
  }

  /**
    Row injection: each row takes the occupancy and colour of the row above
    it, row 0 is refilled with occupied cells of the given colours, and the
    popping flags stay where they are.
   */
  function ShiftDown(g: Grid, refill: seq<int>): (g': Grid)
    requires WellFormed(g) && |refill| == COLS
    ensures WellFormed(g')
    ensures forall c :: 0 <= c < COLS ==> g'[0][c] == g[0][c].(active := true, colorIndex := refill[c])
    ensures forall r, c :: 1 <= r < ROWS && 0 <= c < COLS ==>
      g'[r][c] == g[r][c].(active := g[r - 1][c].active, colorIndex := g[r - 1][c].colorIndex)
  {
    EditRows(g, ShiftAll(refill), ROWS)
  }

  /** No cell of the board is occupied: the win condition. */
  predicate NoActive(g: Grid)
    requires WellFormed(g)
  {
    forall r, c :: 0 <= r < ROWS && 0 <= c < COLS ==> !g[r][c].active
  }

  /** No cell is standing: every occupied cell is already popping. */
  predicate NoStanding(g: Grid)
    requires WellFormed(g)
  {
    forall r, c :: 0 <= r < ROWS && 0 <= c < COLS ==> g[r][c].active ==> g[r][c].isPopping
  }

  /** The board after a shot lands on p: that cell occupied with the shot's colour. */
  function Placed(g: Grid, p: Pos, color: int): (g': Grid)
    requires WellFormed(g) && InBounds(p)
    ensures WellFormed(g')
  {
    SetCell(g, p, g[p.0][p.1].(active := true, colorIndex := color))
  }

  /** How many of the first n cells of a row are occupied. */
  function ActiveCount(row: seq<Cell>, n: int): (k: nat)
    requires 0 <= n <= |row|
    ensures k <= n
    ensures k == 0 <==> forall c :: 0 <= c < n ==> !row[c].active
  {
    if n == 0 then 0 else ActiveCount(row, n - 1) + (if row[n - 1].active then 1 else 0)
  }

  /** How many times the danger-row check signals a loss: once per occupied danger-row cell. */
  function LossSignals(g: Grid): (k: nat)
    requires WellFormed(g)
    ensures k <= COLS
    ensures k == 0 <==> forall c :: 0 <= c < COLS ==> !g[DANGER_ROW][c].active
  {
    ActiveCount(g[DANGER_ROW], COLS)
  }

  /**
    Shifting every row but row 0 down by one and then refilling row 0, done
    as two passes, is ShiftDown.
   */
  lemma ShiftedThenRefilled(g: Grid, mid: Grid, h: Grid, refill: seq<int>)
    requires WellFormed(g) && WellFormed(mid) && WellFormed(h) && |refill| == COLS
    requires forall c :: 0 <= c < COLS ==> mid[0][c] == g[0][c]
    requires forall r, c :: 1 <= r < ROWS && 0 <= c < COLS ==>
      mid[r][c] == g[r][c].(active := g[r - 1][c].active, colorIndex := g[r - 1][c].colorIndex)
    requires forall r :: 1 <= r < ROWS ==> h[r] == mid[r]
    requires forall c :: 0 <= c < COLS ==> h[0][c] == mid[0][c].(active := true, colorIndex := refill[c])
    ensures h == ShiftDown(g, refill)
  {
    GridExt(h, ShiftDown(g, refill));
  }

  /** A row injection keeps every colour in the palette when the refill colours are. */
  lemma ShiftDownKeepsPalette(g: Grid, refill: seq<int>, paletteSize: int)
    requires WellFormed(g) && ColorsInPalette(g, paletteSize) && ColorRow(refill, paletteSize)
    ensures ColorsInPalette(ShiftDown(g, refill), paletteSize)
  {
  }

  /** A row injection never leaves an empty board, so it never produces a win. */
  lemma ShiftDownNeverEmpty(g: Grid, refill: seq<int>)
    requires WellFormed(g) && |refill| == COLS
    ensures !NoActive(ShiftDown(g, refill))
  {
    assert ShiftDown(g, refill)[0][0].active;
  }

  /**
    After a row injection the danger row holds what the row above it held,
    so the loss check fires once per occupied cell of that row before the shift.
   */
  lemma ShiftDownLoss(g: Grid, refill: seq<int>)
    requires WellFormed(g) && |refill| == COLS
    ensures LossSignals(ShiftDown(g, refill)) == ActiveCount(g[DANGER_ROW - 1], COLS)
  {
    var g': Grid := ShiftDown(g, refill);
    ActiveCountSameFlags(g'[DANGER_ROW], g[DANGER_ROW - 1], COLS);
  }

  /** Rows with the same occupancy flags have the same count. */
  lemma {:induction false} ActiveCountSameFlags(a: seq<Cell>, b: seq<Cell>, n: int)
    requires 0 <= n <= |a| && n <= |b|
    requires forall c :: 0 <= c < n ==> a[c].active == b[c].active
    ensures ActiveCount(a, n) == ActiveCount(b, n)
  {
    if n > 0 {
      ActiveCountSameFlags(a, b, n - 1);
    }
  }

  /** Marking cells as popping keeps the colours. */
  lemma MarkPoppingKeepsPalette(g: Grid, s: set<Pos>, paletteSize: int)
    requires WellFormed(g) && ColorsInPalette(g, paletteSize)
    ensures ColorsInPalette(MarkPopping(g, s), paletteSize)
  {
  }

  /** Emptying cells keeps the colours. */
  lemma ClearCellsKeepsPalette(g: Grid, s: set<Pos>, paletteSize: int)
    requires WellFormed(g) && ColorsInPalette(g, paletteSize)
    ensures ColorsInPalette(ClearCells(g, s), paletteSize)
  {
  }

  /** Marking a set and then another is marking their union. */
  lemma MarkPoppingUnion(g: Grid, a: set<Pos>, b: set<Pos>)
    requires WellFormed(g)
    ensures MarkPopping(MarkPopping(g, a), b) == MarkPopping(g, a + b)
  {
    GridExt(MarkPopping(MarkPopping(g, a), b), MarkPopping(g, a + b));
  }

  /** Marking a cell that is already popping changes nothing. */
  lemma MarkPoppingIdle(g: Grid, p: Pos)
    requires WellFormed(g) && InBounds(p) && g[p.0][p.1].isPopping
    ensures MarkPopping(g, {p}) == g
  {
    GridExt(MarkPopping(g, {p}), g);
  }

  /** Marking one cell that is not yet popping sets exactly its flag. */
  lemma MarkPoppingOne(g: Grid, p: Pos)
    requires WellFormed(g) && InBounds(p)
    ensures MarkPopping(g, {p}) == SetCell(g, p, g[p.0][p.1].(isPopping := true))
  {
    GridExt(MarkPopping(g, {p}), SetCell(g, p, g[p.0][p.1].(isPopping := true)));
  }

  /** Marking nothing changes nothing. */
  lemma MarkPoppingNone(g: Grid)
    requires WellFormed(g)
    ensures MarkPopping(g, {}) == g
  {
    GridExt(MarkPopping(g, {}), g);
  }

  /** Emptying one more cell of an already partly emptied board. */
  lemma ClearCellsOneMore(g: Grid, s: set<Pos>, p: Pos)
    requires WellFormed(g) && InBounds(p)
    ensures SetCell(ClearCells(g, s), p, ClearCells(g, s)[p.0][p.1].(active := false, isPopping := false))
      == ClearCells(g, s + {p})
  {
    var h: Grid := ClearCells(g, s);
    GridExt(SetCell(h, p, h[p.0][p.1].(active := false, isPopping := false)), ClearCells(g, s + {p}));
  }

  // ---------------------------------------------------------------------
  // Pop-animation records

  /** Removal time of a popping cell, in milliseconds. */
  const POP_DURATION: int := 400

  /** A pending removal: the cell, its colour when it started popping, and when it started. */
  datatype PopAnim = PopAnim(r: int, c: int, colorIndex: int, startTime: int) {
    function At(): Pos { (r, c) }
  }

  /** An animation is over once POP_DURATION has elapsed since it started. */
  predicate Finished(a: PopAnim, now: int) {
    now - a.startTime >= POP_DURATION
  }

  /** The records still running at time `now`, in their original order. */
  function Pending(pa: seq<PopAnim>, now: int): (rest: seq<PopAnim>)
    ensures |rest| <= |pa|
    ensures forall a :: a in rest <==> a in pa && !Finished(a, now)
  {
    if pa == [] then []
    else (if Finished(pa[0], now) then [] else [pa[0]]) + Pending(pa[1..], now)
  }

  /** The cells of the records that are over at time `now`. */
  function FinishedCells(pa: seq<PopAnim>, now: int): (s: set<Pos>)
    ensures forall p :: p in s <==> exists a :: a in pa && Finished(a, now) && a.At() == p
  {
    set a | a in pa && Finished(a, now) :: a.At()
  }

  /** The cells that have a record. */
  function RecordCells(pa: seq<PopAnim>): (s: set<Pos>)
    ensures forall p :: p in s <==> exists a :: a in pa && a.At() == p
  {
    set a | a in pa :: a.At()
  }

  /** No cell has two records. */
  predicate DistinctCells(pa: seq<PopAnim>) {
    forall i, j :: 0 <= i < j < |pa| ==> pa[i].At() != pa[j].At()
  }

  /**
    The bookkeeping invariant between the board and the records: the records
    name board cells, no cell twice, and a cell is popping exactly when it
    has a record.
   */
  predicate RecordsMatchPopping(g: Grid, pa: seq<PopAnim>)
    requires WellFormed(g)
  {
    (forall a :: a in pa ==> InBounds(a.At())) &&
    DistinctCells(pa) &&
    forall r, c :: 0 <= r < ROWS && 0 <= c < COLS ==> (g[r][c].isPopping <==> (r, c) in RecordCells(pa))
  }

  /** A subsequence of records with distinct cells has distinct cells. */
  lemma PendingDistinct(pa: seq<PopAnim>, now: int)
    requires DistinctCells(pa)
    ensures DistinctCells(Pending(pa, now))
  {
    if pa != [] {
      PendingDistinct(pa[1..], now);
      var rest := Pending(pa[1..], now);
      assert forall a :: a in rest ==> a in pa[1..];
      if !Finished(pa[0], now) {
        forall j | 0 < j < |[pa[0]] + rest|
          ensures ([pa[0]] + rest)[0].At() != ([pa[0]] + rest)[j].At()
        {
          var a := rest[j - 1];
          assert a in pa[1..];
          var k :| 0 <= k < |pa[1..]| && pa[1..][k] == a;
          assert pa[k + 1] == a;
        }
      }
    }
  }

  /**
    Starting a pop on a cell that is not popping keeps the invariant when one
    record for that cell is appended.
   */
  lemma StartPopKeepsRecords(g: Grid, pa: seq<PopAnim>, p: Pos, now: int)
    requires WellFormed(g) && InBounds(p) && RecordsMatchPopping(g, pa)
    requires !g[p.0][p.1].isPopping
    ensures RecordsMatchPopping(MarkPopping(g, {p}), pa + [PopAnim(p.0, p.1, g[p.0][p.1].colorIndex, now)])
  {
    var a := PopAnim(p.0, p.1, g[p.0][p.1].colorIndex, now);
    var pa' := pa + [a];
    assert p !in RecordCells(pa);
    forall q
      ensures q in RecordCells(pa') <==> q in RecordCells(pa) || q == p
    {
      if q in RecordCells(pa') {
        var b :| b in pa' && b.At() == q;
        if b != a { assert b in pa; }
      }
      if q == p { assert a in pa'; }
      if q in RecordCells(pa) {
        var b :| b in pa && b.At() == q;
        assert b in pa';
      }
    }
    forall i, j | 0 <= i < j < |pa'|
      ensures pa'[i].At() != pa'[j].At()
    {
      if j == |pa| {
        assert pa'[i] in pa;
      }
    }
  }

  /**
    The pop-completion rule keeps the invariant: emptying the cells whose
    records are over and dropping those records leaves every remaining
    popping cell with exactly one record.
   */
  lemma CompletePopsKeepsRecords(g: Grid, pa: seq<PopAnim>, now: int)
    requires WellFormed(g) && RecordsMatchPopping(g, pa)
    ensures RecordsMatchPopping(ClearCells(g, FinishedCells(pa, now)), Pending(pa, now))
  {
    var done := FinishedCells(pa, now);
    var rest := Pending(pa, now);
    PendingDistinct(pa, now);
    forall r, c | 0 <= r < ROWS && 0 <= c < COLS
      ensures ClearCells(g, done)[r][c].isPopping <==> (r, c) in RecordCells(rest)
    {
      if (r, c) in done {
        var a :| a in pa && Finished(a, now) && a.At() == (r, c);
        assert (r, c) !in RecordCells(rest);
      } else if g[r][c].isPopping {
        var a :| a in pa && a.At() == (r, c);
        assert !Finished(a, now);
        assert a in rest;
      }
    }
  }

  /** Pending, read from position i of the records on. */
  lemma PendingFrom(pa: seq<PopAnim>, i: int, now: int)
    requires 0 <= i < |pa|
    ensures Pending(pa[i..], now) == (if Finished(pa[i], now) then [] else [pa[i]]) + Pending(pa[i + 1..], now)
  {
    assert pa[i..][0] == pa[i];
    assert pa[i..][1..] == pa[i + 1..];
  }

  /**
    The end of the backward removal sweep: once every record has been looked
    at, the records left are the pending ones, every finished record's cell
    is empty, and the board still agrees with its records and palette.
   */
  lemma SweepComplete(g: Grid, pa: seq<PopAnim>, cur: seq<PopAnim>, h: Grid, now: int, paletteSize: int)
    requires WellFormed(g) && ColorsInPalette(g, paletteSize) && RecordsMatchPopping(g, pa)
    requires cur == pa[..0] + Pending(pa[0..], now)
    requires h == ClearCells(g, FinishedCells(pa[0..], now))
    ensures cur == Pending(pa, now) && h == ClearCells(g, FinishedCells(pa, now))
    ensures WellFormed(h) && ColorsInPalette(h, paletteSize) && RecordsMatchPopping(h, cur)
  {
    assert pa[..0] == [] && pa[0..] == pa;
    CompletePopsKeepsRecords(g, pa, now);
    ClearCellsKeepsPalette(g, FinishedCells(pa, now), paletteSize);
  }

  /** FinishedCells, read from position i of the records on. */
  lemma FinishedCellsFrom(pa: seq<PopAnim>, i: int, now: int)
    requires 0 <= i < |pa|
    ensures FinishedCells(pa[i..], now) ==
      FinishedCells(pa[i + 1..], now) + (if Finished(pa[i], now) then {pa[i].At()} else {})
  {
    assert pa[i..] == [pa[i]] + pa[i + 1..];
    forall a ensures a in pa[i..] <==> a == pa[i] || a in pa[i + 1..] {
    }
  }

  /**
    One step of the backward removal sweep over the records: with the
    records after i already processed, removing record i when it is over
    (and keeping it otherwise) leaves the records from i on processed.
   */
  lemma SpliceStep(pa: seq<PopAnim>, cur: seq<PopAnim>, i: int, now: int)
    requires 0 <= i < |pa| && cur == pa[..i + 1] + Pending(pa[i + 1..], now)
    ensures i < |cur| && cur[i] == pa[i]
    ensures Finished(pa[i], now) ==> cur[..i] + cur[i + 1..] == pa[..i] + Pending(pa[i..], now)
    ensures !Finished(pa[i], now) ==> cur == pa[..i] + Pending(pa[i..], now)
  {
    var rest := Pending(pa[i + 1..], now);
    PendingFrom(pa, i, now);
    assert pa[..i + 1] == pa[..i] + [pa[i]];
    SpliceOut(pa[..i], pa[i], rest, cur);
    if Finished(pa[i], now) {
      assert Pending(pa[i..], now) == rest;
    } else {
      assert Pending(pa[i..], now) == [pa[i]] + rest;
    }
  }

  /** Taking out the element after a prefix of a sequence leaves the prefix and the suffix. */
  lemma SpliceOut<T>(pre: seq<T>, x: T, post: seq<T>, s: seq<T>)
    requires s == pre + [x] + post
    ensures |pre| < |s| && s[|pre|] == x
    ensures s[..|pre|] + s[|pre| + 1..] == pre + post
    ensures s == pre + ([x] + post)
  {
    assert s[..|pre|] == pre;
    assert s[|pre| + 1..] == post;
  }

  /**
    `pa'` is `pa` followed by one record per cell of s, each started at
    `now` with the colour that cell has in g.
   */
  ghost predicate AppendedRecords(pa: seq<PopAnim>, pa': seq<PopAnim>, s: set<Pos>, g: Grid, now: int)
    requires WellFormed(g)
  {
    |pa'| == |pa| + |s| && pa'[..|pa|] == pa &&
    forall i :: |pa| <= i < |pa'| ==>
      pa'[i].At() in s && InBounds(pa'[i].At()) && pa'[i].startTime == now &&
      pa'[i].colorIndex == g[pa'[i].r][pa'[i].c].colorIndex
  }

  /** Nothing appended for no cells. */
  lemma AppendedNone(pa: seq<PopAnim>, g: Grid, now: int)
    requires WellFormed(g)
    ensures AppendedRecords(pa, pa, {}, g, now)
  {
  }

  /** One more record, for a cell not yet covered, extends the appended records by that cell. */
  lemma AppendedStep(pa: seq<PopAnim>, pa': seq<PopAnim>, s: set<Pos>, g: Grid, now: int, p: Pos)
    requires WellFormed(g) && InBounds(p) && p !in s
    requires AppendedRecords(pa, pa', s, g, now)
    ensures AppendedRecords(pa, pa' + [PopAnim(p.0, p.1, g[p.0][p.1].colorIndex, now)], s + {p}, g, now)
  {
    var a := PopAnim(p.0, p.1, g[p.0][p.1].colorIndex, now);
    assert (pa' + [a])[..|pa|] == pa'[..|pa|];
  }

  /**
    When the records have distinct cells, the appended ones cover s: every
    cell of s got exactly one new record.
   */
  lemma AppendedCover(pa: seq<PopAnim>, pa': seq<PopAnim>, s: set<Pos>, g: Grid, now: int)
    requires WellFormed(g) && AppendedRecords(pa, pa', s, g, now) && DistinctCells(pa')
    ensures forall p :: p in s ==> exists i :: |pa| <= i < |pa'| && pa'[i].At() == p
  {
    var news := set i | |pa| <= i < |pa'| :: pa'[i].At();
    assert news <= s;
    CardOfInjective(|pa|, |pa'|, pa', news);
    if exists q :: q in s && q !in news {
      var q :| q in s && q !in news;
      SubsetCardinality(news, s, q);
    }
  }

  /** The cells of records |pa|..|pa'| are |pa'| - |pa| many when no cell repeats. */
  lemma {:induction false} CardOfInjective(lo: int, hi: int, pa': seq<PopAnim>, news: set<Pos>)
    requires 0 <= lo <= hi <= |pa'| && DistinctCells(pa')
    requires news == set i | lo <= i < hi :: pa'[i].At()
    ensures |news| == hi - lo
    decreases hi - lo
  {
    if lo < hi {
      var rest := set i | lo + 1 <= i < hi :: pa'[i].At();
      CardOfInjective(lo + 1, hi, pa', rest);
      assert pa'[lo].At() !in rest;
      assert news == rest + {pa'[lo].At()};
    }
  }

  /** Moving p from the unprocessed part `rest` to the processed part of `all`. */
  lemma MoveOne(all: set<Pos>, rest: set<Pos>, p: Pos)
    requires p in rest && rest <= all
    ensures (all - rest) + {p} == all - (rest - {p})
  {
  }

  /** A proper subset is strictly smaller. */
  lemma SubsetCardinality(a: set<Pos>, b: set<Pos>, q: Pos)
    requires a <= b && q in b && q !in a
    ensures |a| < |b|
  {
    var b' := b - {q};
    assert b' == a + (b' - a) && a * (b' - a) == {};
    assert |b'| == |b| - 1;
  }

  /** Placing a bubble (occupancy and colour) leaves the popping flags, hence the invariant, alone. */
  lemma PlaceKeepsRecords(g: Grid, pa: seq<PopAnim>, p: Pos, color: int)
    requires WellFormed(g) && InBounds(p) && RecordsMatchPopping(g, pa)
    ensures RecordsMatchPopping(Placed(g, p, color), pa)
  {
  }

  /** Placing a bubble changes cell p alone: it becomes occupied with the shot's colour. */
  lemma PlacedCells(g: Grid, p: Pos, color: int)
    requires WellFormed(g) && InBounds(p)
    ensures forall r, c :: 0 <= r < ROWS && 0 <= c < COLS ==>
      Placed(g, p, color)[r][c] == if (r, c) == p then g[r][c].(active := true, colorIndex := color) else g[r][c]
  {
  }

  /** Placing a bubble of a palette colour keeps every colour in the palette. */
  lemma PlaceKeepsPalette(g: Grid, p: Pos, color: int, paletteSize: int)
    requires WellFormed(g) && InBounds(p) && ColorsInPalette(g, paletteSize) && 0 <= color < paletteSize
    ensures ColorsInPalette(Placed(g, p, color), paletteSize)
  {
    PlacedCells(g, p, color);
  }

  /** A row injection leaves the popping flags, hence the invariant, alone. */
  lemma ShiftDownKeepsRecords(g: Grid, pa: seq<PopAnim>, refill: seq<int>)
    requires WellFormed(g) && |refill| == COLS && RecordsMatchPopping(g, pa)
    ensures RecordsMatchPopping(ShiftDown(g, refill), pa)
  {
  }
}
