/**
  The running game: the board, the score and miss counters, the pending pop
  animations, and the operations that change them when a game starts, when
  a shot settles, when a row is injected, when the deferred drop check runs
  and on every animation frame.
 */
module Game {
  import opened HexGrid
  import opened Board
  import opened Matching
  import opened Scoring

  /** The screen the game is on. */
  datatype Phase = Menu | Playing | GameOver

  /** What settling a shot did. */
  datatype Settlement =
    | Overflow                                       // landed too low: the game ends
    | Popped(size: nat)                              // formed a group that pops
    | Missed(rowInjected: bool, lossSignals: nat)    // popped nothing

  /** Milliseconds between two timed row injections. */
  const AUTO_DROP_MS: int := 25 * 1000

  /** The group a shot of colour `color` forms when it lands on p. */
  ghost function ShotGroup(g: Grid, p: Pos, color: int): set<Pos>
    requires WellFormed(g) && InBounds(p)
  {
    Component(Placed(g, p, color), SameColor(color), p)
  }

  class Game {
    /** The board: ROWS rows of COLS cells. */
    var grid: Grid
    const paletteSize: int
    var phase: Phase
    var score: int
    var highScore: int
    var shotCounter: int
    var popAnimations: seq<PopAnim>
    /** Colour of the bubble on the launcher. */
    var projectileColor: int
    /** Colour of the bubble shown as next. */
    var nextColorIndex: int
    var lastDropTime: int
    /** Deferred drop checks scheduled after a pop and not yet run. */
    var pendingDropChecks: nat

    ghost predicate Valid()
      reads this
    {
      WellFormed(grid) &&
      paletteSize > 0 &&
      ColorsInPalette(grid, paletteSize) &&
      RecordsMatchPopping(grid, popAnimations) &&
      1 <= shotCounter <= MAX_MISSES &&
      0 <= projectileColor < paletteSize &&
      0 <= nextColorIndex < paletteSize &&
      0 <= score
    }

    /**
      The screen and the best score after `signals` loss signals, starting
      from `phase0` and `high0`: unchanged when there were none; otherwise
      the game is over and the best score is raised to the score if lower.
     */
    ghost predicate EndedBy(signals: nat, phase0: Phase, high0: int)
      reads this`phase, this`highScore, this`score
    {
      if signals > 0 then phase == GameOver && highScore == (if score > high0 then score else high0)
      else phase == phase0 && highScore == high0
    }

    /** The page as loaded: on the menu, nothing on the board, nothing pending. */
    constructor (paletteSize: int, storedHighScore: int)
      requires paletteSize > 0
      ensures Valid()
      ensures this.paletteSize == paletteSize && NoActive(grid)
      ensures phase == Menu && score == 0 && highScore == storedHighScore
      ensures shotCounter == MAX_MISSES && popAnimations == [] && pendingDropChecks == 0
    {
      this.paletteSize := paletteSize;
      grid := seq(ROWS, r => seq(COLS, c => Cell(false, 0, false)));
      phase := Menu;
      score := 0;
      highScore := storedHighScore;
      shotCounter := MAX_MISSES;
      popAnimations := [];
      projectileColor := 0;
      nextColorIndex := 0;
      lastDropTime := 0;
      pendingDropChecks := 0;
    }

    /** Builds the board of a new game, row by row, from one colour draw per cell. */
    method InitGrid(colors: seq<seq<int>>)
      requires |colors| == ROWS && forall r :: 0 <= r < ROWS ==> |colors[r]| == COLS
      modifies this`grid
      ensures grid == InitialGrid(colors)
    {
      ghost var want := InitialGrid(colors);
      var rows: Grid := [];
      for r := 0 to ROWS
        invariant |rows| == r
        invariant forall rr :: 0 <= rr < r ==> rows[rr] == want[rr]
      {
        var row: seq<Cell> := [];
        for c := 0 to COLS
          invariant |row| == c
          invariant forall cc :: 0 <= cc < c ==> row[cc] == want[r][cc]
        {
          row := row + [Cell(r < PREFILLED_ROWS, colors[r][c], false)];
        }
        rows := rows + [row];
      }
      grid := rows;
    }

    /**
      Starts a game: a fresh board, zero score, a full miss counter, the
      timed drop restarted, and the launcher loaded. Unlike the code it
      models, it also discards the pop records and deferred drop checks of
      the previous game (see StartGameAsWritten).
     */
    method StartGame(colors: seq<seq<int>>, first: int, second: int, now: int)
      requires Valid() && ColorTable(colors, paletteSize)
      requires 0 <= first < paletteSize && 0 <= second < paletteSize
      modifies this
      ensures Valid()
      ensures grid == InitialGrid(colors)
      ensures phase == Playing && score == 0 && shotCounter == MAX_MISSES && lastDropTime == now
      ensures projectileColor == first && nextColorIndex == second && highScore == old(highScore)
      ensures popAnimations == [] && pendingDropChecks == 0
    {
      phase := Playing;
      score := 0;
      shotCounter := MAX_MISSES;
      lastDropTime := now;
      InitGrid(colors);
      popAnimations := [];
      pendingDropChecks := 0;
      nextColorIndex := first;
      CreateProjectile(second);
    }

    /**
      startGame as the code has it: the pop records and the deferred drop
      checks of the previous game survive onto the new board.
     */
    method StartGameAsWritten(colors: seq<seq<int>>, first: int, second: int, now: int)
      requires Valid() && ColorTable(colors, paletteSize)
      requires 0 <= first < paletteSize && 0 <= second < paletteSize
      modifies this
      ensures grid == InitialGrid(colors)
      ensures phase == Playing && score == 0 && shotCounter == MAX_MISSES && lastDropTime == now
      ensures projectileColor == first && nextColorIndex == second && highScore == old(highScore)
      ensures popAnimations == old(popAnimations) && pendingDropChecks == old(pendingDropChecks)
    {
      phase := Playing;
      score := 0;
      shotCounter := MAX_MISSES;
      lastDropTime := now;
      InitGrid(colors);
      nextColorIndex := first;
      CreateProjectile(second);
    }

    /** Back to the menu; nothing else changes. */
    method ResetGame()
      modifies this`phase
      ensures phase == Menu
    {
      phase := Menu;
    }

    /** Loads the launcher with the next colour and draws a new next colour. */
    method CreateProjectile(nextDraw: int)
      modifies this`projectileColor, this`nextColorIndex
      ensures projectileColor == old(nextColorIndex) && nextColorIndex == nextDraw
      ensures grid == old(grid) && popAnimations == old(popAnimations) && score == old(score) && shotCounter == old(shotCounter)
      ensures pendingDropChecks == old(pendingDropChecks) && phase == old(phase) && highScore == old(highScore)
    {
      projectileColor := nextColorIndex;
      nextColorIndex := nextDraw;
    }

    /** Ends the game, raising the best score to this game's score when it is higher. */
    method EndGame()
      requires Valid()
      modifies this`phase, this`highScore
      ensures Valid()
      ensures phase == GameOver
      ensures highScore == if score > old(highScore) then score else old(highScore)
    {
      phase := GameOver;
      if score > highScore {
        highScore := score;
      }
    }

    /**
      Starts the pop of cell (r, c): the cell is marked popping and one
      record is appended, unless it is popping already, in which case
      nothing changes.
     */
    method StartPopAnimation(r: int, c: int, now: int)
      requires Valid() && InBounds((r, c))
      modifies this`popAnimations, this`grid
      ensures Valid()
      ensures grid == MarkPopping(old(grid), {(r, c)})
      ensures popAnimations == old(popAnimations) +
        (if old(grid)[r][c].isPopping then [] else [PopAnim(r, c, old(grid)[r][c].colorIndex, now)])
    {
      var b := grid[r][c];
      if b.isPopping {
        MarkPoppingIdle(grid, (r, c));
        return;
      }
      MarkPoppingOne(grid, (r, c));
      StartPopKeepsRecords(grid, popAnimations, (r, c), now);
      MarkPoppingKeepsPalette(grid, {(r, c)}, paletteSize);
      grid := grid[r := grid[r][c := b.(isPopping := true)]];
      popAnimations := popAnimations + [PopAnim(r, c, b.colorIndex, now)];
    }

    /**
      Since the board was g and the records pa, exactly the cells of s have
      been marked popping, and each got one record, appended in some order.
     */
    ghost predicate PoppedSince(g: Grid, pa: seq<PopAnim>, s: set<Pos>, now: int)
      requires WellFormed(g)
      reads this
    {
      Valid() && grid == MarkPopping(g, s) && AppendedRecords(pa, popAnimations, s, g, now)
    }

    /** Starts the pop of one more standing cell p, which was not popping in g. */
    method PopOne(p: Pos, now: int, ghost g: Grid, ghost pa: seq<PopAnim>, ghost done: set<Pos>)
      requires WellFormed(g) && PoppedSince(g, pa, done, now)
      requires InBounds(p) && p !in done && !g[p.0][p.1].isPopping
      modifies this`popAnimations, this`grid
      ensures PoppedSince(g, pa, done + {p}, now)
    {
      assert grid[p.0][p.1] == g[p.0][p.1];
      ghost var before := popAnimations;
      StartPopAnimation(p.0, p.1, now);
      MarkPoppingUnion(g, done, {p});
      AppendedStep(pa, before, done, g, now, p);
    }

    /**
      Starts the pop of every cell of a group whose cells are all standing:
      each is marked popping and gets one record.
     */
    method PopGroup(cells: set<Pos>, now: int)
      requires Valid()
      requires forall p :: p in cells ==> Open(grid, AnyColor, p)
      modifies this`popAnimations, this`grid
      ensures Valid()
      ensures grid == MarkPopping(old(grid), cells)
      ensures AppendedRecords(old(popAnimations), popAnimations, cells, old(grid), now)
    {
      ghost var g := grid;
      ghost var pa := popAnimations;
      var rest := cells;
      MarkPoppingNone(g);
      AppendedNone(pa, g, now);
      assert cells - rest == {};
      while rest != {}
        invariant rest <= cells
        invariant PoppedSince(g, pa, cells - rest, now)
        decreases rest
      {
        var p :| p in rest;
        assert Open(g, AnyColor, p);
        PopOne(p, now, g, pa, cells - rest);
        MoveOne(cells, rest, p);
        rest := rest - {p};
      }
      assert cells - rest == cells;
    }

    /**
      The group of (r, c): every cell reachable from it through occupied,
      non-popping cells of colour `color`. Empty when (r, c) itself does
      not qualify.
     */
    method FindMatches(r: int, c: int, color: int) returns (matches: set<Pos>)
      requires Valid() && InBounds((r, c))
      ensures matches == Component(grid, SameColor(color), (r, c))
    {
      if Open(grid, SameColor(color), (r, c)) {
        ReachesSelf(grid, SameColor(color), (r, c));
      }
      ghost var cells := BoardCells();
      matches := Visit(r, c, color, {}, (r, c), {}, cells);
      ClosedReachedIsComponent(grid, SameColor(color), (r, c), matches);
    }

    /**
      One step of the depth-first search: visits (r, c) with the cells found
      so far in `matches`. `pending` holds the cells on the search's stack,
      whose neighbours are not all visited yet.
     */
    method Visit(r: int, c: int, color: int, matches: set<Pos>, ghost seed: Pos, ghost pending: set<Pos>,
                 ghost cells: set<Pos>)
      returns (found: set<Pos>)
      requires WellFormed(grid) && InBounds((r, c))
      requires forall p {:trigger p in cells} :: p in cells <==> InBounds(p)
      requires forall p :: p in matches ==> InBounds(p) && Reaches(grid, SameColor(color), seed, p)
      requires Open(grid, SameColor(color), (r, c)) ==> Reaches(grid, SameColor(color), seed, (r, c))
      requires ClosedExcept(grid, SameColor(color), matches, pending)
      ensures matches <= found
      ensures forall p :: p in found ==> InBounds(p) && Reaches(grid, SameColor(color), seed, p)
      ensures Open(grid, SameColor(color), (r, c)) ==> (r, c) in found
      ensures ClosedExcept(grid, SameColor(color), found, pending)
      decreases cells - matches
    {
      ghost var t := SameColor(color);
      found := matches;
      if (r, c) in matches {
        return;
      }
      var b := grid[r][c];
      if !b.active || b.colorIndex != color || b.isPopping {
        return;
      }
      found := matches + {(r, c)};
      var nbs := Neighbors(r, c);
      for i := 0 to |nbs|
        invariant matches + {(r, c)} <= found
        invariant forall p :: p in found ==> InBounds(p) && Reaches(grid, t, seed, p)
        invariant ClosedExcept(grid, t, found, pending + {(r, c)})
        invariant NeighborsIn(grid, t, (r, c), found, i)
      {
        if Open(grid, t, nbs[i]) {
          ReachesAppend(grid, t, seed, (r, c), i);
        }
        assert cells - found < cells - matches by {
          assert (r, c) in cells - matches && (r, c) !in cells - found;
        }
        ghost var before := found;
        found := Visit(nbs[i].0, nbs[i].1, color, found, seed, pending + {(r, c)}, cells);
        NeighborsInStep(grid, t, (r, c), before, found, i);
      }
      ClosedAfterExpand(grid, t, found, pending, (r, c));
    }

    /**
      The first half of the drop check: a breadth-first search from the
      standing cells of row 0 through standing cells. Returns the cells it
      reaches: exactly those that hang from the ceiling.
     */
    method CeilingPass() returns (connected: set<Pos>)
      requires WellFormed(grid)
      ensures forall p :: p in connected <==> InBounds(p) && CeilingReachable(grid, p)
    {
      var queue;
      connected, queue := SeedCeilingRow();
      ghost var cells := BoardCells();
      var head := 0;
      while head < |queue|
        invariant connected <= cells
        invariant CeilingSearch(grid, connected, queue, head)
        decreases cells - connected, |queue| - head
      {
        connected, queue := ExpandHead(head, connected, queue, cells);
        head := head + 1;
      }
      CeilingSearchDone(grid, connected, queue);
    }

    /** The start of the ceiling pass: the standing cells of row 0, marked and queued. */
    method SeedCeilingRow() returns (connected: set<Pos>, queue: seq<Pos>)
      requires WellFormed(grid)
      ensures CeilingSearch(grid, connected, queue, 0)
    {
      connected := {};
      queue := [];
      for c := 0 to COLS
        invariant forall p :: p in connected <==> p in queue
        invariant forall p :: p in connected ==> Open(grid, AnyColor, p) && CeilingReachable(grid, p)
        invariant forall cc :: 0 <= cc < c && Open(grid, AnyColor, (0, cc)) ==> (0, cc) in connected
      {
        if grid[0][c].active && !grid[0][c].isPopping {
          CeilingRowAttached(grid, c);
          connected := connected + {(0, c)};
          queue := queue + [(0, c)];
        }
      }
    }

    /**
      One round of the ceiling pass: the cell at the head of the queue is
      expanded, and every cell before it stays expanded.
     */
    method ExpandHead(head: int, connected: set<Pos>, queue: seq<Pos>, ghost cells: set<Pos>)
      returns (connected': set<Pos>, queue': seq<Pos>)
      requires WellFormed(grid) && head < |queue| && CeilingSearch(grid, connected, queue, head)
      requires forall p {:trigger p in cells} :: p in cells <==> InBounds(p)
      requires connected <= cells
      ensures connected' <= cells && CeilingSearch(grid, connected', queue', head + 1)
      ensures queue' == queue || cells - connected' < cells - connected
    {
      var curr := queue[head];
      assert curr in queue;
      connected', queue' := ExpandCell(curr, connected, queue, cells);
      ExpandedPrefixGrows(grid, AnyColor, queue, queue', connected, connected', head + 1);
    }

    /**
      One step of the ceiling pass: every standing neighbour of `curr` not
      yet marked is marked and queued, so afterwards `curr` is expanded.
     */
    method ExpandCell(curr: Pos, connected: set<Pos>, queue: seq<Pos>, ghost cells: set<Pos>)
      returns (connected': set<Pos>, queue': seq<Pos>)
      requires WellFormed(grid) && curr in connected
      requires forall p {:trigger p in cells} :: p in cells <==> InBounds(p)
      requires connected <= cells
      requires forall p :: p in connected <==> p in queue
      requires forall p :: p in connected ==> Open(grid, AnyColor, p) && CeilingReachable(grid, p)
      ensures connected <= connected' <= cells && |queue| <= |queue'| && queue'[..|queue|] == queue
      ensures queue' == queue || cells - connected' < cells - connected
      ensures forall p :: p in connected' <==> p in queue'
      ensures forall p :: p in connected' ==> Open(grid, AnyColor, p) && CeilingReachable(grid, p)
      ensures Expanded(grid, AnyColor, curr, connected')
    {
      connected', queue' := connected, queue;
      var nbs := Neighbors(curr.0, curr.1);
      for i := 0 to |nbs|
        invariant connected <= connected' <= cells && |queue| <= |queue'| && queue'[..|queue|] == queue
        invariant queue' == queue || cells - connected' < cells - connected
        invariant forall p :: p in connected' <==> p in queue'
        invariant forall p :: p in connected' ==> Open(grid, AnyColor, p) && CeilingReachable(grid, p)
        invariant NeighborsIn(grid, AnyColor, curr, connected', i)
      {
        var nb := nbs[i];
        ghost var before := connected';
        if grid[nb.0][nb.1].active && nb !in connected' && !grid[nb.0][nb.1].isPopping {
          CeilingReachableStep(grid, curr, i);
          assert cells - (connected' + {nb}) < cells - connected by {
            assert nb in cells - connected && nb !in cells - (connected' + {nb});
          }
          connected' := connected' + {nb};
          queue' := queue' + [nb];
        }
        NeighborsInStep(grid, AnyColor, curr, before, connected', i);
      }
    }

    /**
      dropDisconnected: marks as popping, in row-major order, every standing
      cell that does not hang from the ceiling, and returns how many it
      marked. A record is appended for each of them.
     */
    method DropDisconnected(now: int) returns (count: nat)
      requires Valid()
      modifies this`popAnimations, this`grid
      ensures Valid()
      ensures grid == MarkPopping(old(grid), DetachedCells(old(grid)))
      ensures count == |DetachedCells(old(grid))|
      ensures AppendedRecords(old(popAnimations), popAnimations, DetachedCells(old(grid)), old(grid), now)
    {
      var connected := CeilingPass();
      ghost var g := grid;
      ghost var pa := popAnimations;
      ghost var marked: set<Pos> := {};
      MarkPoppingNone(g);
      AppendedNone(pa, g, now);
      count := 0;
      for r := 0 to ROWS
        invariant PoppedSince(g, pa, marked, now) && count == |marked|
        invariant MarkedBefore(g, marked, r, 0)
      {
        count, marked := ScanRow(r, connected, now, count, g, pa, marked);
      }
      MarkedBeforeDone(g, marked);
    }

    /** The drop sweep over row r: each detached cell of the row is marked popping and gets a record. */
    method ScanRow(r: int, connected: set<Pos>, now: int, count0: nat, ghost g: Grid, ghost pa: seq<PopAnim>,
                   ghost marked0: set<Pos>)
      returns (count: nat, ghost marked: set<Pos>)
      requires WellFormed(g) && 0 <= r < ROWS
      requires forall p :: p in connected <==> InBounds(p) && CeilingReachable(g, p)
      requires PoppedSince(g, pa, marked0, now) && count0 == |marked0| && MarkedBefore(g, marked0, r, 0)
      modifies this`popAnimations, this`grid
      ensures PoppedSince(g, pa, marked, now) && count == |marked| && MarkedBefore(g, marked, r + 1, 0)
    {
      count, marked := count0, marked0;
      for c := 0 to COLS
        invariant PoppedSince(g, pa, marked, now) && count == |marked|
        invariant MarkedBefore(g, marked, r, c)
      {
        count, marked := ScanCell(r, c, connected, now, count, g, pa, marked);
      }
      MarkedBeforeNextRow(g, marked, r);
    }

    /** One cell of the drop sweep: (r, c) is marked popping and gets a record exactly when it is detached. */
    method ScanCell(r: int, c: int, connected: set<Pos>, now: int, count0: nat, ghost g: Grid,
                    ghost pa: seq<PopAnim>, ghost marked0: set<Pos>)
      returns (count: nat, ghost marked: set<Pos>)
      requires WellFormed(g) && 0 <= r < ROWS && 0 <= c < COLS
      requires forall p :: p in connected <==> InBounds(p) && CeilingReachable(g, p)
      requires PoppedSince(g, pa, marked0, now) && count0 == |marked0| && MarkedBefore(g, marked0, r, c)
      modifies this`popAnimations, this`grid
      ensures PoppedSince(g, pa, marked, now) && count == |marked| && MarkedBefore(g, marked, r, c + 1)
    {
      count, marked := count0, marked0;
      MarkedBeforeStep(g, marked, r, c);
      var b := grid[r][c];
      assert b == g[r][c];
      if b.active && (r, c) !in connected && !b.isPopping {
        PopOne((r, c), now, g, pa, marked);
        marked := marked + {(r, c)};
        count := count + 1;
      }
    }

    /**
      The removal sweep of one frame, from the last record to the first:
      every record that is over is removed and its cell emptied; the others
      stay, in order.
     */
    method CompletePops(now: int)
      requires Valid()
      modifies this`popAnimations, this`grid
      ensures Valid()
      ensures popAnimations == Pending(old(popAnimations), now)
      ensures grid == ClearCells(old(grid), FinishedCells(old(popAnimations), now))
      ensures lastDropTime == old(lastDropTime) && phase == old(phase) && highScore == old(highScore) && score == old(score)
    {
      ghost var g := grid;
      ghost var pa := popAnimations;
      SweepAll(now, g, pa);
      SweepComplete(g, pa, popAnimations, grid, now, paletteSize);
    }

    /** The sweep loop itself: records are looked at from the last one down to the first. */
    method SweepAll(now: int, ghost g: Grid, ghost pa: seq<PopAnim>)
      requires WellFormed(g) && popAnimations == pa && grid == g
      requires forall a :: a in pa ==> InBounds(a.At())
      modifies this`popAnimations, this`grid
      ensures SweptFrom(g, pa, -1, now)
    {
      assert pa[..|pa|] == pa && pa[|pa|..] == [];
      assert FinishedCells(pa[|pa|..], now) == {};
      GridExt(g, ClearCells(g, {}));
      var i := |popAnimations| - 1;
      while i >= 0
        invariant -1 <= i < |pa|
        invariant SweptFrom(g, pa, i, now)
        decreases i
      {
        SweepOne(i, now, g, pa);
        i := i - 1;
      }
    }

    /**
      The sweep has looked at the records of pa after position i: those
      that were over are gone and their cells emptied.
     */
    ghost predicate SweptFrom(g: Grid, pa: seq<PopAnim>, i: int, now: int)
      requires WellFormed(g) && -1 <= i < |pa|
      reads this
    {
      popAnimations == pa[..i + 1] + Pending(pa[i + 1..], now) &&
      grid == ClearCells(g, FinishedCells(pa[i + 1..], now))
    }

    /** One step of the sweep: record i is removed, and its cell emptied, when it is over. */
    method SweepOne(i: int, now: int, ghost g: Grid, ghost pa: seq<PopAnim>)
      requires WellFormed(g) && 0 <= i < |pa| && SweptFrom(g, pa, i, now)
      requires forall a :: a in pa ==> InBounds(a.At())
      modifies this`popAnimations, this`grid
      ensures SweptFrom(g, pa, i - 1, now)
    {
      SpliceStep(pa, popAnimations, i, now);
      FinishedCellsFrom(pa, i, now);
      var anim := popAnimations[i];
      assert anim in pa;
      if now - anim.startTime >= POP_DURATION {
        ghost var done := FinishedCells(pa[i + 1..], now);
        ClearCellsOneMore(g, done, anim.At());
        grid := grid[anim.r := grid[anim.r][anim.c := grid[anim.r][anim.c].(active := false, isPopping := false)]];
        assert grid == ClearCells(g, done + {anim.At()});
        popAnimations := popAnimations[..i] + popAnimations[i + 1..];
      } else {
        assert FinishedCells(pa[i..], now) == FinishedCells(pa[i + 1..], now);
      }
    }

    /**
      Row injection: every row takes the occupancy and colour of the row
      above it, row 0 is refilled with the given colours, and then the
      danger row is scanned, ending the game once per occupied cell there.
      Returns how many times the game was ended.
     */
    method PushGridDown(refill: seq<int>) returns (lossSignals: nat)
      requires Valid() && ColorRow(refill, paletteSize)
      modifies this`grid, this`phase, this`highScore
      ensures Valid()
      ensures grid == ShiftDown(old(grid), refill)
      ensures lossSignals == LossSignals(grid)
      ensures EndedBy(lossSignals, old(phase), old(highScore))
    {
      ShiftAndRefill(refill);
      lossSignals := CheckDangerRow();
    }

    /** The two board passes of a row injection: every row moves down, then row 0 is refilled. */
    method ShiftAndRefill(refill: seq<int>)
      requires Valid() && ColorRow(refill, paletteSize)
      modifies this`grid
      ensures Valid()
      ensures grid == ShiftDown(old(grid), refill)
    {
      ghost var g := grid;
      ShiftDownKeepsPalette(g, refill, paletteSize);
      ShiftDownKeepsRecords(g, popAnimations, refill);
      ShiftRows();
      ghost var mid := grid;
      RefillTop(refill);
      ShiftedThenRefilled(g, mid, grid, refill);
    }

    /** Row r (not row 0) takes the occupancy and colour of row r - 1; nothing else changes. */
    method ShiftRow(r: int)
      requires WellFormed(grid) && 1 <= r < ROWS
      modifies this`grid
      ensures WellFormed(grid)
      ensures forall rr :: 0 <= rr < ROWS && rr != r ==> grid[rr] == old(grid)[rr]
      ensures forall c :: 0 <= c < COLS ==>
        grid[r][c] == old(grid)[r][c].(active := old(grid)[r - 1][c].active, colorIndex := old(grid)[r - 1][c].colorIndex)
    {
      for c := 0 to COLS
        invariant WellFormed(grid)
        invariant forall rr :: 0 <= rr < ROWS && rr != r ==> grid[rr] == old(grid)[rr]
        invariant forall cc :: 0 <= cc < COLS ==>
          (grid[r][cc] ==
             if cc < c then old(grid)[r][cc].(active := old(grid)[r - 1][cc].active, colorIndex := old(grid)[r - 1][cc].colorIndex)
             else old(grid)[r][cc])
      {
        grid := grid[r := grid[r][c := grid[r][c].(active := grid[r - 1][c].active, colorIndex := grid[r - 1][c].colorIndex)]];
      }
    }

    /** The bottom-up copy of pushGridDown: rows ROWS - 1 down to 1 each take the row above. */
    method ShiftRows()
      requires WellFormed(grid)
      modifies this`grid
      ensures WellFormed(grid)
      ensures forall c :: 0 <= c < COLS ==> grid[0][c] == old(grid)[0][c]
      ensures forall r, c :: 1 <= r < ROWS && 0 <= c < COLS ==>
        grid[r][c] == old(grid)[r][c].(active := old(grid)[r - 1][c].active, colorIndex := old(grid)[r - 1][c].colorIndex)
    {
      var r := ROWS - 1;
      while r > 0
        invariant 0 <= r <= ROWS - 1
        invariant WellFormed(grid)
        invariant forall rr :: 0 <= rr <= r ==> grid[rr] == old(grid)[rr]
        invariant forall rr, c :: r < rr < ROWS && 0 <= c < COLS ==>
          grid[rr][c] == old(grid)[rr][c].(active := old(grid)[rr - 1][c].active, colorIndex := old(grid)[rr - 1][c].colorIndex)
      {
        ShiftRow(r);
        r := r - 1;
      }
    }

    /** Row 0 is refilled: every cell occupied, with the drawn colours; nothing else changes. */
    method RefillTop(refill: seq<int>)
      requires WellFormed(grid) && |refill| == COLS
      modifies this`grid
      ensures WellFormed(grid)
      ensures forall rr :: 1 <= rr < ROWS ==> grid[rr] == old(grid)[rr]
      ensures forall c :: 0 <= c < COLS ==> grid[0][c] == old(grid)[0][c].(active := true, colorIndex := refill[c])
    {
      for c := 0 to COLS
        invariant WellFormed(grid)
        invariant forall rr :: 1 <= rr < ROWS ==> grid[rr] == old(grid)[rr]
        invariant forall cc :: 0 <= cc < COLS ==>
          grid[0][cc] == if cc < c then old(grid)[0][cc].(active := true, colorIndex := refill[cc]) else old(grid)[0][cc]
      {
        grid := grid[0 := grid[0][c := grid[0][c].(active := true, colorIndex := refill[c])]];
      }
    }

    /** The limit check: the game is ended once per occupied cell of the danger row. */
    method CheckDangerRow() returns (lossSignals: nat)
      requires Valid()
      modifies this`phase, this`highScore
      ensures Valid()
      ensures lossSignals == LossSignals(grid)
      ensures EndedBy(lossSignals, old(phase), old(highScore))
    {
      lossSignals := 0;
      for c := 0 to COLS
        invariant Valid()
        invariant lossSignals == ActiveCount(grid[DANGER_ROW], c)
        invariant EndedBy(lossSignals, old(phase), old(highScore))
      {
        if grid[DANGER_ROW][c].active {
          EndGame();
          lossSignals := lossSignals + 1;
        }
      }
    }

    /** The shot lands on p: that cell becomes occupied with the launcher's colour. */
    method PlaceShot(p: Pos)
      requires Valid() && InBounds(p)
      modifies this`grid
      ensures Valid()
      ensures grid == Placed(old(grid), p, projectileColor)
      ensures grid[p.0][p.1].colorIndex == projectileColor
    {
      PlaceKeepsPalette(grid, p, projectileColor, paletteSize);
      PlaceKeepsRecords(grid, popAnimations, p, projectileColor);
      grid := grid[p.0 := grid[p.0][p.1 := grid[p.0][p.1].(active := true, colorIndex := projectileColor)]];
    }

    /** Sets the miss counter; nothing else changes. */
    method SetShotCounter(k: int)
      requires Valid() && 1 <= k <= MAX_MISSES
      modifies this`shotCounter
      ensures Valid() && shotCounter == k
      ensures phase == old(phase) && highScore == old(highScore) && score == old(score)
    {
      shotCounter := k;
    }

    /** Restarts the timed drop at `now`; nothing else changes. */
    method RestartDropTimer(now: int)
      requires Valid()
      modifies this`lastDropTime
      ensures Valid() && lastDropTime == now
      ensures phase == old(phase) && highScore == old(highScore) && score == old(score)
    {
      lastDropTime := now;
    }

    /**
      A shot that popped nothing: the miss counter counts down, and when it
      runs out a row is injected and the counter is refilled.
     */
    method RegisterMiss(refill: seq<int>) returns (result: Settlement)
      requires Valid() && ColorRow(refill, paletteSize)
      modifies this`shotCounter, this`grid, this`phase, this`highScore
      ensures Valid()
      ensures shotCounter == CounterAfterMiss(old(shotCounter))
      ensures result.Missed? && result.rowInjected == MissInjectsRow(old(shotCounter))
      ensures result.rowInjected ==> grid == ShiftDown(old(grid), refill) && result.lossSignals == LossSignals(grid)
      ensures !result.rowInjected ==> grid == old(grid) && result.lossSignals == 0
      ensures EndedBy(result.lossSignals, old(phase), old(highScore))
    {
      var remaining := shotCounter - 1;
      if remaining <= 0 {
        var loss := PushGridDown(refill);
        SetShotCounter(MAX_MISSES);
        result := Missed(true, loss);
      } else {
        SetShotCounter(remaining);
        result := Missed(false, 0);
      }
    }

    /**
      Places the shot on p and either pops the group it forms, for
      POINTS_PER_POP points a cell and one deferred drop check, or counts a
      miss.
     */
    method SettleShot(p: Pos, now: int, refill: seq<int>) returns (result: Settlement, matches: set<Pos>)
      requires Valid() && InBounds(p) && ColorRow(refill, paletteSize)
      modifies this`grid, this`popAnimations, this`score, this`pendingDropChecks, this`shotCounter, this`phase, this`highScore
      ensures Valid()
      ensures matches == ShotGroup(old(grid), p, projectileColor)
      ensures result.Popped? <==> |matches| >= MATCH_THRESHOLD
      ensures result.Popped? ==>
        result.size == |matches| &&
        grid == MarkPopping(Placed(old(grid), p, projectileColor), matches) &&
        AppendedRecords(old(popAnimations), popAnimations, matches, Placed(old(grid), p, projectileColor), now) &&
        score == old(score) + PopPoints(result.size) && pendingDropChecks == old(pendingDropChecks) + 1 &&
        shotCounter == old(shotCounter) && phase == old(phase) && highScore == old(highScore)
      ensures result.Missed? ==>
        result.rowInjected == MissInjectsRow(old(shotCounter)) && shotCounter == CounterAfterMiss(old(shotCounter)) &&
        popAnimations == old(popAnimations) && score == old(score) && pendingDropChecks == old(pendingDropChecks)
      ensures result.Missed? && result.rowInjected ==>
        grid == ShiftDown(Placed(old(grid), p, projectileColor), refill) && result.lossSignals == LossSignals(grid)
      ensures result.Missed? && !result.rowInjected ==>
        grid == Placed(old(grid), p, projectileColor) && result.lossSignals == 0
      ensures result.Missed? ==> EndedBy(result.lossSignals, old(phase), old(highScore))
      ensures !result.Overflow?
    {
      PlaceShot(p);
      matches := FindMatches(p.0, p.1, grid[p.0][p.1].colorIndex);
      if |matches| >= MATCH_THRESHOLD {
        PopMatches(p, matches, now);
        result := Popped(|matches|);
      } else {
        result := RegisterMiss(refill);
      }
    }

    /**
      The group of a shot pops: each cell is marked popping and gets a
      record, the score grows by POINTS_PER_POP a cell, and one drop check
      is scheduled.
     */
    method PopMatches(p: Pos, matches: set<Pos>, now: int)
      requires Valid() && InBounds(p) && matches == Component(grid, SameColor(projectileColor), p)
      modifies this`grid, this`popAnimations, this`score, this`pendingDropChecks
      ensures Valid()
      ensures grid == MarkPopping(old(grid), matches)
      ensures AppendedRecords(old(popAnimations), popAnimations, matches, old(grid), now)
      ensures score == old(score) + PopPoints(|matches|) && pendingDropChecks == old(pendingDropChecks) + 1
    {
      forall q | q in matches
        ensures Open(grid, AnyColor, q)
      {
        ComponentMembersOpen(grid, SameColor(projectileColor), p, q);
      }
      PopGroup(matches, now);
      score := score + PopPoints(|matches|);
      pendingDropChecks := pendingDropChecks + 1;
    }

    /**
      Settles a shot that reached row targetR, column targetC. Too low a
      landing row ends the game and leaves everything else as it was;
      otherwise the shot is placed and pops or counts as a miss, the
      launcher is reloaded, and the board is checked for a win.
     */
    method FinalizeSettling(targetR: int, targetC: int, now: int, nextDraw: int, refill: seq<int>)
      returns (result: Settlement, won: bool)
      requires Valid() && 0 <= targetR && 0 <= targetC < COLS
      requires 0 <= nextDraw < paletteSize && ColorRow(refill, paletteSize)
      modifies this`grid, this`popAnimations, this`score, this`pendingDropChecks, this`shotCounter, this`phase, this`highScore,
        this`projectileColor, this`nextColorIndex
      ensures Valid()
      ensures result == Overflow <==> targetR >= ROWS - 2
      ensures result == Overflow ==>
        grid == old(grid) && popAnimations == old(popAnimations) && score == old(score) &&
        shotCounter == old(shotCounter) && pendingDropChecks == old(pendingDropChecks) &&
        projectileColor == old(projectileColor) && nextColorIndex == old(nextColorIndex) &&
        phase == GameOver && highScore == (if score > old(highScore) then score else old(highScore)) && !won
      ensures result != Overflow ==>
        projectileColor == old(nextColorIndex) && nextColorIndex == nextDraw && (won <==> NoStanding(grid))
      ensures result != Overflow ==>
        (result.Popped? <==> |ShotGroup(old(grid), (targetR, targetC), old(projectileColor))| >= MATCH_THRESHOLD)
      ensures result.Popped? ==> result.size == |ShotGroup(old(grid), (targetR, targetC), old(projectileColor))|
      ensures result.Missed? ==> result.rowInjected == MissInjectsRow(old(shotCounter))
      ensures result.Popped? ==>
        result.size >= MATCH_THRESHOLD && score == old(score) + PopPoints(result.size) &&
        shotCounter == old(shotCounter) && pendingDropChecks == old(pendingDropChecks) + 1
      ensures result.Missed? ==>
        score == old(score) && shotCounter == CounterAfterMiss(old(shotCounter)) &&
        pendingDropChecks == old(pendingDropChecks)
      ensures result.Popped? ==>
        grid == MarkPopping(Placed(old(grid), (targetR, targetC), old(projectileColor)),
                            ShotGroup(old(grid), (targetR, targetC), old(projectileColor)))
      ensures result.Missed? ==>
        grid == if result.rowInjected then ShiftDown(Placed(old(grid), (targetR, targetC), old(projectileColor)), refill)
                else Placed(old(grid), (targetR, targetC), old(projectileColor))
      ensures result.Popped? ==>
        AppendedRecords(old(popAnimations), popAnimations, ShotGroup(old(grid), (targetR, targetC), old(projectileColor)),
                        Placed(old(grid), (targetR, targetC), old(projectileColor)), now) &&
        phase == old(phase) && highScore == old(highScore)
      ensures result.Missed? ==>
        popAnimations == old(popAnimations) &&
        (result.rowInjected ==> result.lossSignals == LossSignals(grid)) &&
        (!result.rowInjected ==> result.lossSignals == 0) &&
        EndedBy(result.lossSignals, old(phase), old(highScore))
    {
      if targetR >= ROWS - 2 {
        EndGame();
        return Overflow, false;
      }
      result, won := SettleAndReload((targetR, targetC), now, nextDraw, refill);
    }

    /** A shot that landed on the board settles, the launcher is reloaded, and the win check runs. */
    method SettleAndReload(p: Pos, now: int, nextDraw: int, refill: seq<int>) returns (result: Settlement, won: bool)
      requires Valid() && InBounds(p)
      requires 0 <= nextDraw < paletteSize && ColorRow(refill, paletteSize)
      modifies this`grid, this`popAnimations, this`score, this`pendingDropChecks, this`shotCounter, this`phase, this`highScore,
        this`projectileColor, this`nextColorIndex
      ensures Valid() && !result.Overflow?
      ensures projectileColor == old(nextColorIndex) && nextColorIndex == nextDraw && (won <==> NoStanding(grid))
      ensures result.Popped? <==> |ShotGroup(old(grid), p, old(projectileColor))| >= MATCH_THRESHOLD
      ensures result.Popped? ==> result.size == |ShotGroup(old(grid), p, old(projectileColor))|
      ensures result.Missed? ==> result.rowInjected == MissInjectsRow(old(shotCounter))
      ensures result.Popped? ==>
        result.size >= MATCH_THRESHOLD && score == old(score) + PopPoints(result.size) &&
        shotCounter == old(shotCounter) && pendingDropChecks == old(pendingDropChecks) + 1
      ensures result.Missed? ==>
        score == old(score) && shotCounter == CounterAfterMiss(old(shotCounter)) &&
        pendingDropChecks == old(pendingDropChecks)
      ensures result.Popped? ==>
        grid == MarkPopping(Placed(old(grid), p, old(projectileColor)), ShotGroup(old(grid), p, old(projectileColor)))
      ensures result.Missed? ==>
        grid == if result.rowInjected then ShiftDown(Placed(old(grid), p, old(projectileColor)), refill)
                else Placed(old(grid), p, old(projectileColor))
      ensures result.Popped? ==>
        AppendedRecords(old(popAnimations), popAnimations, ShotGroup(old(grid), p, old(projectileColor)),
                        Placed(old(grid), p, old(projectileColor)), now) &&
        phase == old(phase) && highScore == old(highScore)
      ensures result.Missed? ==>
        popAnimations == old(popAnimations) &&
        (result.rowInjected ==> result.lossSignals == LossSignals(grid)) &&
        (!result.rowInjected ==> result.lossSignals == 0) &&
        EndedBy(result.lossSignals, old(phase), old(highScore))
    {
      var matches;
      result, matches := SettleShot(p, now, refill);
      CreateProjectile(nextDraw);
      won := CheckBoardCleared();
    }

    /**
      The deferred drop check scheduled by a pop: the detached cells start
      popping, and POINTS_PER_DROP points are scored for each of them. It
      runs whatever screen the game is on by then. As in FinalizeSettling,
      the corrected win check follows: the drop may be what clears the board.
     */
    method RunDropCheck(now: int) returns (dropped: nat, won: bool)
      requires Valid() && pendingDropChecks > 0
      modifies this`grid, this`popAnimations, this`score, this`pendingDropChecks
      ensures Valid()
      ensures grid == MarkPopping(old(grid), DetachedCells(old(grid))) && dropped == |DetachedCells(old(grid))|
      ensures AppendedRecords(old(popAnimations), popAnimations, DetachedCells(old(grid)), old(grid), now)
      ensures score == old(score) + DropPoints(dropped) && pendingDropChecks == old(pendingDropChecks) - 1
      ensures won <==> NoStanding(grid)
      ensures won <==> forall c :: 0 <= c < COLS ==> !Open(old(grid), AnyColor, (0, c))
    {
      ghost var g := grid;
      dropped := DropDisconnected(now);
      if dropped > 0 {
        score := score + DropPoints(dropped);
      }
      pendingDropChecks := pendingDropChecks - 1;
      won := CheckBoardCleared();
      DropClearsBoard(g);
    }

    /**
      The timed drop: once AUTO_DROP_MS have passed since the last one, a
      row is injected and the timer restarts.
     */
    method AutoDrop(now: int, refill: seq<int>) returns (injected: bool, lossSignals: nat)
      requires Valid() && ColorRow(refill, paletteSize)
      modifies this`grid, this`lastDropTime, this`phase, this`highScore
      ensures Valid()
      ensures injected <==> now - old(lastDropTime) >= AUTO_DROP_MS
      ensures injected ==> grid == ShiftDown(old(grid), refill) && lastDropTime == now && lossSignals == LossSignals(grid)
      ensures !injected ==> grid == old(grid) && lastDropTime == old(lastDropTime) && lossSignals == 0
      ensures EndedBy(lossSignals, old(phase), old(highScore))
    {
      if now - lastDropTime >= AUTO_DROP_MS {
        lossSignals := InjectTimedRow(now, refill);
        injected := true;
      } else {
        injected, lossSignals := false, 0;
      }
    }

    /** The row injection of the timed drop, which then restarts the timer. */
    method InjectTimedRow(now: int, refill: seq<int>) returns (lossSignals: nat)
      requires Valid() && ColorRow(refill, paletteSize)
      modifies this`grid, this`lastDropTime, this`phase, this`highScore
      ensures Valid()
      ensures grid == ShiftDown(old(grid), refill) && lastDropTime == now && lossSignals == LossSignals(grid)
      ensures EndedBy(lossSignals, old(phase), old(highScore))
    {
      lossSignals := PushGridDown(refill);
      RestartDropTimer(now);
    }

    /**
      The board work of one animation frame, done only while playing: the
      timed drop, then the removal of the pops that are over.
     */
    method Frame(now: int, refill: seq<int>) returns (injected: bool, lossSignals: nat)
      requires Valid() && ColorRow(refill, paletteSize)
      modifies this`grid, this`popAnimations, this`lastDropTime, this`phase, this`highScore
      ensures Valid()
      ensures old(phase) != Playing ==>
        grid == old(grid) && popAnimations == old(popAnimations) && lastDropTime == old(lastDropTime) &&
        phase == old(phase) && highScore == old(highScore) && !injected && lossSignals == 0
      ensures old(phase) == Playing ==>
        (injected <==> now - old(lastDropTime) >= AUTO_DROP_MS) &&
        popAnimations == Pending(old(popAnimations), now) &&
        grid == ClearCells(if injected then ShiftDown(old(grid), refill) else old(grid), FinishedCells(old(popAnimations), now)) &&
        (injected ==> lastDropTime == now && lossSignals == LossSignals(ShiftDown(old(grid), refill))) &&
        (!injected ==> lastDropTime == old(lastDropTime) && lossSignals == 0) &&
        EndedBy(lossSignals, old(phase), old(highScore))
      ensures lossSignals > 0 ==> injected && phase == GameOver
    {
      injected, lossSignals := false, 0;
      if phase == Playing {
        injected, lossSignals := AutoDrop(now, refill);
        assert injected ==> lossSignals == LossSignals(ShiftDown(old(grid), refill));
        CompletePops(now);
      }
    }

    /**
      The win check as the code has it: true exactly when no cell of the
      board is occupied, popping cells included.
     */
    method CheckWinCondition() returns (won: bool)
      requires Valid()
      ensures won <==> NoActive(grid)
    {
      var hasActive := false;
      var r := 0;
      while r < ROWS && !hasActive
        invariant 0 <= r <= ROWS
        invariant hasActive <==> exists rr, cc :: 0 <= rr < r && 0 <= cc < COLS && grid[rr][cc].active
      {
        var c := 0;
        while c < COLS && !hasActive
          invariant 0 <= c <= COLS
          invariant !(exists rr, cc :: 0 <= rr < r && 0 <= cc < COLS && grid[rr][cc].active)
          invariant hasActive <==> exists cc :: 0 <= cc < c && grid[r][cc].active
        {
          hasActive := grid[r][c].active;
          c := c + 1;
        }
        r := r + 1;
      }
      won := !hasActive;
    }

    /**
      The win check as evidently intended: true exactly when every occupied
      cell is already popping, so that the board is about to be empty.
     */
    method CheckBoardCleared() returns (won: bool)
      requires Valid()
      ensures won <==> NoStanding(grid)
    {
      var hasStanding := false;
      var r := 0;
      while r < ROWS && !hasStanding
        invariant 0 <= r <= ROWS
        invariant hasStanding <==> exists rr, cc :: 0 <= rr < r && 0 <= cc < COLS && grid[rr][cc].active && !grid[rr][cc].isPopping
      {
        var c := 0;
        while c < COLS && !hasStanding
          invariant 0 <= c <= COLS
          invariant !(exists rr, cc :: 0 <= rr < r && 0 <= cc < COLS && grid[rr][cc].active && !grid[rr][cc].isPopping)
          invariant hasStanding <==> exists cc :: 0 <= cc < c && grid[r][cc].active && !grid[r][cc].isPopping
        {
          hasStanding := grid[r][c].active && !grid[r][c].isPopping;
          c := c + 1;
        }
        r := r + 1;
      }
      won := !hasStanding;
    }
  }

  // ---------------------------------------------------------------------
  // The win check

  /**
    The win check as the code has it can never fire where a settlement runs
    it: the cell just shot is still occupied on every board a settlement
    leaves behind (placed, placed and popping, or placed and shifted down).
   */
  lemma AsWrittenWinNeverFires(g: Grid, p: Pos, color: int, s: set<Pos>, refill: seq<int>)
    requires WellFormed(g) && InBounds(p) && |refill| == COLS
    ensures !NoActive(Placed(g, p, color))
    ensures !NoActive(MarkPopping(Placed(g, p, color), s))
    ensures !NoActive(ShiftDown(Placed(g, p, color), refill))
  {
    PlacedCells(g, p, color);
    assert Placed(g, p, color)[p.0][p.1].active;
    assert MarkPopping(Placed(g, p, color), s)[p.0][p.1].active;
    ShiftDownNeverEmpty(Placed(g, p, color), refill);
  }

  /**
    A shot whose group takes in every standing cell of the board leaves
    only popping cells behind: the corrected check reports the win.
   */
  lemma LastGroupWins(g: Grid, p: Pos, color: int)
    requires WellFormed(g) && InBounds(p)
    requires forall q :: Open(Placed(g, p, color), AnyColor, q) ==> q in ShotGroup(g, p, color)
    ensures NoStanding(MarkPopping(Placed(g, p, color), ShotGroup(g, p, color)))
  {
    var h: Grid := Placed(g, p, color);
    forall r: int, c: int | 0 <= r < ROWS && 0 <= c < COLS && h[r][c].active && !h[r][c].isPopping
      ensures (r, c) in ShotGroup(g, p, color)
    {
      assert Open(h, AnyColor, (r, c));
    }
  }

  /**
    The n leftmost cells of row 0 hold bubbles of colour 0 and no cell
    pops; nothing else is on the board.
   */
  predicate RunAtTopLeft(g: Grid, n: int)
    requires WellFormed(g)
  {
    forall r, c :: 0 <= r < ROWS && 0 <= c < COLS ==>
      g[r][c].active == (r == 0 && c < n) && !g[r][c].isPopping && (g[r][c].active ==> g[r][c].colorIndex == 0)
  }

  /** A bubble of colour 0 landing at (0, 2) next to a run of two makes a run of three. */
  lemma ShotExtendsRun(g: Grid)
    requires WellFormed(g) && RunAtTopLeft(g, 2)
    ensures RunAtTopLeft(Placed(g, (0, 2), 0), 3)
  {
    PlacedCells(g, (0, 2), 0);
  }

  /** The occupied cells of a run of three are its three cells. */
  lemma InRunOfThree(h: Grid, q: Pos)
    requires WellFormed(h) && RunAtTopLeft(h, 3) && InBounds(q) && h[q.0][q.1].active
    ensures q in {(0, 0), (0, 1), (0, 2)}
  {
    assert q.0 == 0 && 0 <= q.1 < 3;
    if q.1 == 0 {
      assert q == (0, 0);
    } else if q.1 == 1 {
      assert q == (0, 1);
    } else {
      assert q == (0, 2);
    }
  }

  /** The group of colour 0 at (0, 2) in a run of three is the whole run. */
  lemma RunOfThreeGroup(h: Grid)
    requires WellFormed(h) && RunAtTopLeft(h, 3)
    ensures Component(h, SameColor(0), (0, 2)) == {(0, 0), (0, 1), (0, 2)}
  {
    var t := SameColor(0);
    var three: set<Pos> := {(0, 0), (0, 1), (0, 2)};
    assert Open(h, t, (0, 0)) && Open(h, t, (0, 1)) && Open(h, t, (0, 2));
    ReachesSelf(h, t, (0, 2));
    assert Offsets(0)[0] == (0, -1);
    NeighborOfOffset(0, 2, (0, 1));
    NeighborOfOffset(0, 1, (0, 0));
    var i := NeighborIndex(0, 2, (0, 1));
    var j := NeighborIndex(0, 1, (0, 0));
    ReachesAppend(h, t, (0, 2), (0, 2), i);
    ReachesAppend(h, t, (0, 2), (0, 1), j);
    forall q | q in Component(h, t, (0, 2))
      ensures q in three
    {
      ComponentMembersOpen(h, t, (0, 2), q);
      InRunOfThree(h, q);
    }
  }

  /** The run of three has three cells. */
  lemma RunOfThreeSize()
    ensures |{(0, 0), (0, 1), (0, 2)}| == 3
  {
    var one: set<Pos> := {(0, 0)};
    var two := one + {(0, 1)};
    assert (0, 1) !in one;
    assert |two| == 2;
    var three := two + {(0, 2)};
    assert (0, 2) !in two;
    assert |three| == 3;
    assert three == {(0, 0), (0, 1), (0, 2)};
  }

  /** Once a run of three pops, no cell stands, yet three cells are still occupied. */
  lemma RunOfThreePopped(h: Grid)
    requires WellFormed(h) && RunAtTopLeft(h, 3)
    ensures NoStanding(MarkPopping(h, {(0, 0), (0, 1), (0, 2)}))
    ensures !NoActive(MarkPopping(h, {(0, 0), (0, 1), (0, 2)}))
  {
    var popped: Grid := MarkPopping(h, {(0, 0), (0, 1), (0, 2)});
    forall r: int, c: int | 0 <= r < ROWS && 0 <= c < COLS && popped[r][c].active
      ensures popped[r][c].isPopping
    {
      InRunOfThree(h, (r, c));
    }
    assert popped[0][0].active;
  }

  /**
    A concrete clearing shot: on a board whose only bubbles are two of
    colour 0 at (0, 0) and (0, 1), a bubble of colour 0 landing at (0, 2)
    forms a group of three, which takes in the whole board. The board it
    leaves has no standing cell, yet it is not empty, so the check as
    written misses the win.
   */
  lemma ClearingShotExample(g: Grid)
    requires WellFormed(g) && RunAtTopLeft(g, 2)
    ensures |ShotGroup(g, (0, 2), 0)| >= MATCH_THRESHOLD
    ensures NoStanding(MarkPopping(Placed(g, (0, 2), 0), ShotGroup(g, (0, 2), 0)))
    ensures !NoActive(MarkPopping(Placed(g, (0, 2), 0), ShotGroup(g, (0, 2), 0)))
  {
    var h := Placed(g, (0, 2), 0);
    ShotExtendsRun(g);
    RunOfThreeGroup(h);
    RunOfThreePopped(h);
    RunOfThreeSize();
  }

  // ---------------------------------------------------------------------
  // Records across games

  /**
    What a pop record left over from the previous game does to a new board
    (see StartGameAsWritten): when it names a cell of the prefilled rows,
    the fresh board no longer matches its records, and the first frame
    after the record expires empties that cell, which is standing.
   */
  lemma StaleRecordErasesCell(colors: seq<seq<int>>, a: PopAnim, now: int)
    requires |colors| == ROWS && forall r :: 0 <= r < ROWS ==> |colors[r]| == COLS
    requires 0 <= a.r < PREFILLED_ROWS && 0 <= a.c < COLS && Finished(a, now)
    ensures InitialGrid(colors)[a.r][a.c].active && !InitialGrid(colors)[a.r][a.c].isPopping
    ensures !RecordsMatchPopping(InitialGrid(colors), [a])
    ensures !ClearCells(InitialGrid(colors), FinishedCells([a], now))[a.r][a.c].active
  {
    assert a in [a];
    assert a.At() in RecordCells([a]);
    assert a.At() in FinishedCells([a], now);
  }
}
