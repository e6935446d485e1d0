/**
 * One generation of the colony: every cell's next age from the number of
 * live cells around it in the current grid.
 */
module Generation {
  import opened LifeConstants
  import opened Grids

  /** A live cell stands at (r, c): the position exists and its age is positive. */
  predicate IsLive(g: Grid, r: int, c: int)
    requires g.Valid()
  {
    g.InBounds(r, c) && g.cells[r][c] > 0
  }

  /** How many of the first k table offsets around (r, c) hold a live cell. */
  function LiveAmongFirst(g: Grid, r: int, c: int, k: nat): (n: nat)
    requires g.Valid() && k <= DirLen
    ensures n <= k
  {
    if k == 0 then 0
    else LiveAmongFirst(g, r, c, k - 1) + (if IsLive(g, r + Dr[k - 1], c + Dc[k - 1]) then 1 else 0)
  }

  /** How many of the first k table offsets around (r, c) lie on the grid. */
  function OnGridAmongFirst(g: Grid, r: int, c: int, k: nat): (n: nat)
    requires g.Valid() && k <= DirLen
    ensures n <= k
  {
    if k == 0 then 0
    else OnGridAmongFirst(g, r, c, k - 1) + (if g.InBounds(r + Dr[k - 1], c + Dc[k - 1]) then 1 else 0)
  }

  /** The neighbour count of (r, c): live cells at the eight offsets. */
  function LiveNeighbors(g: Grid, r: int, c: int): (n: nat)
    requires g.Valid()
    ensures n <= DirLen
  {
    LiveAmongFirst(g, r, c, DirLen)
  }

  /**
   * The rule switch: the next age of a cell of age `age` whose neighbour
   * count is `count`.
   */
  function Rule(count: nat, age: int): (next: int)
    ensures next == 0 || next == 1 || next == age
  {
    match count
    case 0 | 1 => 0
    case 2 => age
    case 3 => 1
    case _ => 0
  }

  /** The next age of the cell at (r, c). */
  function NextCell(g: Grid, r: int, c: int): (v: int)
    requires g.Valid() && g.InBounds(r, c)
    ensures v == 0 || v == 1 || v == g.cells[r][c]
  {
    Rule(LiveNeighbors(g, r, c), g.cells[r][c])
  }

  /** The next generation, computed from the current grid alone. */
  function Step(g: Grid): (h: Grid)
    requires g.Valid()
    ensures h.Valid() && h.rows == g.rows && h.cols == g.cols
    ensures forall i, j :: g.InBounds(i, j) ==> h.cells[i][j] == NextCell(g, i, j)
  {
    Grid(g.rows, g.cols,
         seq(g.rows, i requires 0 <= i < g.rows =>
           seq(g.cols, j requires 0 <= j < g.cols => NextCell(g, i, j))))
  }

  /** The driver's termination test: a step changed nothing. */
  predicate IsStable(previous: Grid, next: Grid)
    requires previous.Valid() && next.Valid()
  {
    SameGrid(previous, next)
  }

  /**
   * getNextGrid: a fresh grid of the same size, filled cell by cell from
   * neighbour counts taken in the input grid only.
   */
  method NextGrid(grid: Grid) returns (next: Grid)
    requires grid.Valid()
    ensures next == Step(grid)
  {
    var row := grid.rows;
    var col := grid.cols;
    next := Zeros(row, col);
    for r := 0 to row
      invariant next.Valid() && next.rows == row && next.cols == col
      invariant forall i, j :: 0 <= i < r && 0 <= j < col ==> next.cells[i][j] == NextCell(grid, i, j)
    {
      for c := 0 to col
        invariant next.Valid() && next.rows == row && next.cols == col
        invariant forall i, j :: 0 <= i < r && 0 <= j < col ==> next.cells[i][j] == NextCell(grid, i, j)
        invariant forall j :: 0 <= j < c ==> next.cells[r][j] == NextCell(grid, r, j)
      {
        var neighborCnt := 0;
        for k := 0 to DirLen
          invariant neighborCnt == LiveAmongFirst(grid, r, c, k)
        {
          var neighborR := r + Dr[k];
          var neighborC := c + Dc[k];
          if grid.InBounds(neighborR, neighborC) && grid.cells[neighborR][neighborC] > 0 {
            neighborCnt := neighborCnt + 1;
          }
        }
        var age;
        match neighborCnt {
          case 0 | 1 => age := 0;
          case 2 => age := grid.cells[r][c];
          case 3 => age := 1;
          case _ => age := 0;
        }
        next := next.Set(r, c, age);
      }
    }
    SameGridIsEquality(next, Step(grid));
  }

  // ----- Neighbour counts -----

  /** Only positions on the grid are counted. */
  lemma {:induction false} LiveWithinOnGrid(g: Grid, r: int, c: int, k: nat)
    requires g.Valid() && k <= DirLen
    ensures LiveAmongFirst(g, r, c, k) <= OnGridAmongFirst(g, r, c, k)
  {
    if k > 0 {
      LiveWithinOnGrid(g, r, c, k - 1);
    }
  }

  /** 1 if a live cell stands at (r, c), else 0. */
  function LiveAt(g: Grid, r: int, c: int): (n: nat)
    requires g.Valid()
    ensures n <= 1
  {
    if IsLive(g, r, c) then 1 else 0
  }

  /** The count, written out over the eight neighbours. */
  lemma LiveNeighborsExpanded(g: Grid, r: int, c: int)
    requires g.Valid()
    ensures LiveNeighbors(g, r, c) ==
              LiveAt(g, r - 1, c - 1) + LiveAt(g, r - 1, c) + LiveAt(g, r - 1, c + 1) +
              LiveAt(g, r, c - 1) + LiveAt(g, r, c + 1) +
              LiveAt(g, r + 1, c - 1) + LiveAt(g, r + 1, c) + LiveAt(g, r + 1, c + 1)
  {
    assert LiveAmongFirst(g, r, c, 1) == LiveAt(g, r - 1, c - 1);
    assert LiveAmongFirst(g, r, c, 2) == LiveAmongFirst(g, r, c, 1) + LiveAt(g, r - 1, c);
    assert LiveAmongFirst(g, r, c, 3) == LiveAmongFirst(g, r, c, 2) + LiveAt(g, r - 1, c + 1);
    assert LiveAmongFirst(g, r, c, 4) == LiveAmongFirst(g, r, c, 3) + LiveAt(g, r, c - 1);
    assert LiveAmongFirst(g, r, c, 5) == LiveAmongFirst(g, r, c, 4) + LiveAt(g, r, c + 1);
    assert LiveAmongFirst(g, r, c, 6) == LiveAmongFirst(g, r, c, 5) + LiveAt(g, r + 1, c - 1);
    assert LiveAmongFirst(g, r, c, 7) == LiveAmongFirst(g, r, c, 6) + LiveAt(g, r + 1, c);
    assert LiveAmongFirst(g, r, c, 8) == LiveAmongFirst(g, r, c, 7) + LiveAt(g, r + 1, c + 1);
  }

  /** 1 if (r, c) lies on the grid, else 0. */
  function OnGridAt(g: Grid, r: int, c: int): (n: nat)
    ensures n <= 1
  {
    if g.InBounds(r, c) then 1 else 0
  }

  /** How many of the rows (or columns) i - 1, i, i + 1 exist in 0 .. n - 1. */
  function Span(i: int, n: nat): (s: nat)
    requires 0 <= i < n
    ensures 1 <= s <= 3 && s <= n
  {
    (if i > 0 then 1 else 0) + 1 + (if i + 1 < n then 1 else 0)
  }

  /** The on-grid count written out as a sum over the eight offsets. */
  lemma OnGridExpanded(g: Grid, r: int, c: int)
    requires g.Valid()
    ensures OnGridAmongFirst(g, r, c, DirLen) ==
              OnGridAt(g, r - 1, c - 1) + OnGridAt(g, r - 1, c) + OnGridAt(g, r - 1, c + 1) +
              OnGridAt(g, r, c - 1) + OnGridAt(g, r, c + 1) +
              OnGridAt(g, r + 1, c - 1) + OnGridAt(g, r + 1, c) + OnGridAt(g, r + 1, c + 1)
  {
    assert OnGridAmongFirst(g, r, c, 1) == OnGridAt(g, r - 1, c - 1);
    assert OnGridAmongFirst(g, r, c, 2) == OnGridAmongFirst(g, r, c, 1) + OnGridAt(g, r - 1, c);
    assert OnGridAmongFirst(g, r, c, 3) == OnGridAmongFirst(g, r, c, 2) + OnGridAt(g, r - 1, c + 1);
    assert OnGridAmongFirst(g, r, c, 4) == OnGridAmongFirst(g, r, c, 3) + OnGridAt(g, r, c - 1);
    assert OnGridAmongFirst(g, r, c, 5) == OnGridAmongFirst(g, r, c, 4) + OnGridAt(g, r, c + 1);
    assert OnGridAmongFirst(g, r, c, 6) == OnGridAmongFirst(g, r, c, 5) + OnGridAt(g, r + 1, c - 1);
    assert OnGridAmongFirst(g, r, c, 7) == OnGridAmongFirst(g, r, c, 6) + OnGridAt(g, r + 1, c);
    assert OnGridAmongFirst(g, r, c, 8) == OnGridAmongFirst(g, r, c, 7) + OnGridAt(g, r + 1, c + 1);
  }

  /** Row i of the 3 x 3 window around column c holds Span(c, cols) grid cells if the row exists, else none. */
  lemma OnGridRow(g: Grid, i: int, c: int)
    requires g.Valid() && 0 <= c < g.cols
    ensures OnGridAt(g, i, c - 1) + OnGridAt(g, i, c) + OnGridAt(g, i, c + 1) == if 0 <= i < g.rows then Span(c, g.cols) else 0
  {
  }

  /** Span(i, n) copies of k: one for each of the rows i - 1, i, i + 1 that exist. */
  lemma SpanTimes(i: int, n: nat, k: int)
    requires 0 <= i < n
    ensures Span(i, n) * k == (if i > 0 then k else 0) + k + (if i + 1 < n then k else 0)
  {
    var s := Span(i, n);
    if s == 1 {
      assert s * k == k;
    } else if s == 2 {
      assert s * k == k + k;
    } else {
      assert s * k == k + k + k;
    }
  }

  /**
   * The candidates of (r, c) are the positions of its 3 x 3 block that exist,
   * minus the cell itself.
   */
  lemma OnGridCandidates(g: Grid, r: int, c: int)
    requires g.Valid() && g.InBounds(r, c)
    ensures OnGridAmongFirst(g, r, c, DirLen) == Span(r, g.rows) * Span(c, g.cols) - 1
  {
    OnGridExpanded(g, r, c);
    var cs := Span(c, g.cols);
    OnGridRow(g, r - 1, c);
    OnGridRow(g, r, c);
    OnGridRow(g, r + 1, c);
    SpanTimes(r, g.rows, cs);
  }

  /**
   * A count lies in 0 .. 8; a corner cell has at most 3 live neighbours, a
   * cell on an edge at most 5, and only an interior cell has 8 candidates.
   */
  lemma NeighborCountBounds(g: Grid, r: int, c: int)
    requires g.Valid() && g.InBounds(r, c)
    ensures LiveNeighbors(g, r, c) <= 8
    ensures (r == 0 || r == g.rows - 1) && (c == 0 || c == g.cols - 1) ==> LiveNeighbors(g, r, c) <= 3
    ensures (r == 0 || r == g.rows - 1 || c == 0 || c == g.cols - 1) ==> LiveNeighbors(g, r, c) <= 5
    ensures OnGridAmongFirst(g, r, c, DirLen) == 8 <==> 0 < r < g.rows - 1 && 0 < c < g.cols - 1
  {
    LiveWithinOnGrid(g, r, c, DirLen);
    OnGridCandidates(g, r, c);
    var a, b := Span(r, g.rows), Span(c, g.cols);
    assert (r == 0 || r == g.rows - 1) ==> a <= 2;
    assert (c == 0 || c == g.cols - 1) ==> b <= 2;
    assert a * b <= 9;
    assert a * b == 9 <==> a == 3 && b == 3;
  }

  /** The live cells of the Moore neighbourhood of (r, c), as positions. */
  ghost function MooreLive(g: Grid, r: int, c: int): set<(int, int)>
    requires g.Valid()
  {
    set i: int, j: int | r - 1 <= i <= r + 1 && c - 1 <= j <= c + 1 && (i, j) != (r, c) && IsLive(g, i, j) :: (i, j)
  }

  /** The position table offset k reaches from (r, c). */
  function Reached(r: int, c: int, k: nat): (int, int)
    requires k < DirLen
  {
    (r + Dr[k], c + Dc[k])
  }

  /** The live positions reached by the first k table offsets. */
  ghost function LiveReachedByFirst(g: Grid, r: int, c: int, k: nat): set<(int, int)>
    requires g.Valid() && k <= DirLen
  {
    if k == 0 then {}
    else
      var p := Reached(r, c, k - 1);
      LiveReachedByFirst(g, r, c, k - 1) + if IsLive(g, p.0, p.1) then {p} else {}
  }

  /** A live position an offset among the first k reaches is in the set, and nothing else is. */
  lemma {:induction false} LiveReachedMembers(g: Grid, r: int, c: int, k: nat, q: (int, int))
    requires g.Valid() && k <= DirLen
    ensures q in LiveReachedByFirst(g, r, c, k) <==> exists j: nat :: j < k && q == Reached(r, c, j) && IsLive(g, q.0, q.1)
  {
    if k > 0 {
      LiveReachedMembers(g, r, c, k - 1, q);
      if q == Reached(r, c, k - 1) && IsLive(g, q.0, q.1) {
        assert q in LiveReachedByFirst(g, r, c, k);
      }
    }
  }

  /** Offset k reaches a position no earlier offset reaches. */
  lemma NotReachedBefore(g: Grid, r: int, c: int, k: nat)
    requires g.Valid() && k < DirLen
    ensures Reached(r, c, k) !in LiveReachedByFirst(g, r, c, k)
  {
    OffsetsDistinct();
    forall j: nat | j < k ensures Reached(r, c, j) != Reached(r, c, k) {
      assert Offset(j) != Offset(k);
    }
    LiveReachedMembers(g, r, c, k, Reached(r, c, k));
  }

  lemma {:induction false} LiveReachedCount(g: Grid, r: int, c: int, k: nat)
    requires g.Valid() && k <= DirLen
    ensures |LiveReachedByFirst(g, r, c, k)| == LiveAmongFirst(g, r, c, k)
  {
    if k > 0 {
      var p := Reached(r, c, k - 1);
      LiveReachedCount(g, r, c, k - 1);
      NotReachedBefore(g, r, c, k - 1);
      assert LiveAmongFirst(g, r, c, k) == LiveAmongFirst(g, r, c, k - 1) + LiveAt(g, p.0, p.1);
    }
  }

  /** Every live neighbour is reached by some offset of the table. */
  lemma MooreLiveReached(g: Grid, r: int, c: int)
    requires g.Valid()
    ensures MooreLive(g, r, c) <= LiveReachedByFirst(g, r, c, DirLen)
  {
    forall p | p in MooreLive(g, r, c) ensures p in LiveReachedByFirst(g, r, c, DirLen) {
      var k := MooreIndex((p.0 - r, p.1 - c));
      assert p == Reached(r, c, k);
      LiveReachedMembers(g, r, c, DirLen, p);
    }
  }

  /** Every position an offset of the table reaches is a neighbour. */
  lemma ReachedAreMoore(g: Grid, r: int, c: int)
    requires g.Valid()
    ensures LiveReachedByFirst(g, r, c, DirLen) <= MooreLive(g, r, c)
  {
    forall p | p in LiveReachedByFirst(g, r, c, DirLen) ensures p in MooreLive(g, r, c) {
      LiveReachedMembers(g, r, c, DirLen, p);
      var k: nat :| k < DirLen && p == Reached(r, c, k) && IsLive(g, p.0, p.1);
      assert -1 <= Offset(k).0 <= 1 && -1 <= Offset(k).1 <= 1 && Offset(k) != (0, 0);
    }
  }

  /**
   * The neighbour count is the number of live cells among the (up to eight)
   * cells adjacent to (r, c) horizontally, vertically or diagonally.
   */
  lemma LiveNeighborsIsMooreCount(g: Grid, r: int, c: int)
    requires g.Valid()
    ensures LiveNeighbors(g, r, c) == |MooreLive(g, r, c)|
  {
    LiveReachedCount(g, r, c, DirLen);
    MooreLiveReached(g, r, c);
    ReachedAreMoore(g, r, c);
    assert LiveReachedByFirst(g, r, c, DirLen) == MooreLive(g, r, c);
  }

  // ----- The rule -----

  /**
   * Liveness follows Conway's B3/S23 rule: a cell is live next exactly when it
   * has 3 live neighbours, or has 2 and is live now.
   */
  lemma StepIsB3S23(g: Grid, r: int, c: int)
    requires g.Valid() && g.InBounds(r, c)
    ensures IsLive(Step(g), r, c) <==>
              LiveNeighbors(g, r, c) == 3 || (LiveNeighbors(g, r, c) == 2 && IsLive(g, r, c))
  {
  }

  /**
   * What the rule does to ages: a birth or a cell with 3 neighbours starts at
   * age 1 (an old cell included); with 2 neighbours the age, or the death, is
   * carried over; otherwise the cell is dead.
   */
  lemma StepAges(g: Grid, r: int, c: int)
    requires g.Valid() && g.InBounds(r, c)
    ensures LiveNeighbors(g, r, c) <= 1 ==> Step(g).cells[r][c] == 0
    ensures LiveNeighbors(g, r, c) == 2 ==> Step(g).cells[r][c] == g.cells[r][c]
    ensures LiveNeighbors(g, r, c) == 3 ==> Step(g).cells[r][c] == 1
    ensures LiveNeighbors(g, r, c) >= 4 ==> Step(g).cells[r][c] == 0
  {
  }

  /** Every cell's age lies in 0 .. hi. */
  predicate AgesWithin(g: Grid, hi: int)
    requires g.Valid()
  {
    forall i, j :: 0 <= i < g.rows && 0 <= j < g.cols ==> 0 <= g.cells[i][j] <= hi
  }

  /**
   * Ages are never incremented: a bound of at least 1 on all ages holds again
   * after a step. With KMaxAge the ages stay drawable; with 1 a colony of
   * fresh cells stays one.
   */
  lemma StepKeepsAgesWithin(g: Grid, hi: int)
    requires g.Valid() && 1 <= hi && AgesWithin(g, hi)
    ensures AgesWithin(Step(g), hi)
  {
    forall i, j | 0 <= i < g.rows && 0 <= j < g.cols ensures 0 <= Step(g).cells[i][j] <= hi {
      assert g.InBounds(i, j);
    }
  }

  lemma StepKeepsDrawableAges(g: Grid)
    requires g.Valid() && AgesWithin(g, KMaxAge)
    ensures AgesWithin(Step(g), KMaxAge)
  {
    StepKeepsAgesWithin(g, KMaxAge);
  }

  // ----- Synchronous update -----

  /** g and h have the same shape and agree on the 3 x 3 block around (r, c). */
  predicate AgreeAround(g: Grid, h: Grid, r: int, c: int)
    requires g.Valid() && h.Valid()
  {
    g.rows == h.rows && g.cols == h.cols &&
    forall i, j :: r - 1 <= i <= r + 1 && c - 1 <= j <= c + 1 && g.InBounds(i, j) ==> g.cells[i][j] == h.cells[i][j]
  }

  lemma {:induction false} LiveAmongFirstIsLocal(g: Grid, h: Grid, r: int, c: int, k: nat)
    requires g.Valid() && h.Valid() && k <= DirLen && AgreeAround(g, h, r, c)
    ensures LiveAmongFirst(g, r, c, k) == LiveAmongFirst(h, r, c, k)
  {
    if k > 0 {
      LiveAmongFirstIsLocal(g, h, r, c, k - 1);
      assert Offset(k - 1).0 == Dr[k - 1];
    }
  }

  /**
   * A cell's next age is decided by the current grid's 3 x 3 block around it
   * and nothing else: the cells being written play no part.
   */
  lemma NextCellIsLocal(g: Grid, h: Grid, r: int, c: int)
    requires g.Valid() && h.Valid() && g.InBounds(r, c) && AgreeAround(g, h, r, c)
    ensures NextCell(g, r, c) == NextCell(h, r, c)
  {
    LiveAmongFirstIsLocal(g, h, r, c, DirLen);
  }

  // ----- Stabilisation -----

  /** A grid the step leaves unchanged stays unchanged by the next step too. */
  lemma FixedPointStaysFixed(g: Grid)
    requires g.Valid() && IsStable(g, Step(g))
    ensures IsStable(Step(g), Step(Step(g))) && Step(Step(g)) == g
  {
    SameGridIsEquality(g, Step(g));
  }
}
