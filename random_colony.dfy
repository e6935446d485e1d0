/**
 * initRandomGrid, with the library's random draws passed in: the two size
 * draws, the coin of every cell, and the age drawn for a cell whose coin came
 * up true. The library's randomInteger(low, high) returns a value in
 * low .. high with BOTH ends included.
 */
module RandomColony {
  import opened LifeConstants
  import opened Grids

  /** v is a possible result of randomInteger(low, high). */
  predicate Drawn(v: int, low: int, high: int)
  {
    low <= v <= high
  }

  /** One coin and one age per cell of a rows x cols grid. */
  predicate Shaped(rows: nat, cols: nat, alive: seq<seq<bool>>, age: seq<seq<int>>)
  {
    |alive| == rows && |age| == rows &&
    forall i :: 0 <= i < rows ==> |alive[i]| == cols && |age[i]| == cols
  }

  /** The colony the draws describe: a cell is its drawn age if its coin came up, else dead. */
  function RandomGrid(rows: nat, cols: nat, alive: seq<seq<bool>>, age: seq<seq<int>>): (g: Grid)
    requires Shaped(rows, cols, alive, age)
    ensures g.Valid() && g.rows == rows && g.cols == cols
  {
    Grid(rows, cols,
         seq(rows, i requires 0 <= i < rows =>
           seq(cols, j requires 0 <= j < cols => if alive[i][j] then age[i][j] else 0)))
  }

  /** The cell loop of initRandomGrid, after the resize. */
  method Populate(rows: nat, cols: nat, alive: seq<seq<bool>>, age: seq<seq<int>>) returns (grid: Grid)
    requires Shaped(rows, cols, alive, age)
    ensures grid == RandomGrid(rows, cols, alive, age)
  {
    grid := Zeros(rows, cols);
    for r := 0 to rows
      invariant grid.Valid() && grid.rows == rows && grid.cols == cols
      invariant forall i, j :: 0 <= i < r && 0 <= j < cols ==> grid.cells[i][j] == if alive[i][j] then age[i][j] else 0
    {
      for c := 0 to cols
        invariant grid.Valid() && grid.rows == rows && grid.cols == cols
        invariant forall i, j :: 0 <= i < r && 0 <= j < cols ==> grid.cells[i][j] == if alive[i][j] then age[i][j] else 0
        invariant forall j :: 0 <= j < c ==> grid.cells[r][j] == if alive[r][j] then age[r][j] else 0
      {
        if alive[r][c] {
          grid := grid.Set(r, c, age[r][c]);
        } else {
          grid := grid.Set(r, c, 0);
        }
      }
    }
    SameGridIsEquality(grid, RandomGrid(rows, cols, alive, age));
  }

  /** The draws initRandomGrid can get: randomInteger(40, 60 + 1) twice, randomInteger(1, kMaxAge + 1) per live cell. */
  ghost predicate AsWrittenDraws(rows: nat, cols: nat, alive: seq<seq<bool>>, age: seq<seq<int>>)
  {
    Drawn(rows, 40, 60 + 1) && Drawn(cols, 40, 60 + 1) && Shaped(rows, cols, alive, age) &&
    forall i, j :: 0 <= i < rows && 0 <= j < cols && alive[i][j] ==> Drawn(age[i][j], 1, KMaxAge + 1)
  }

  /** The draws that give the sizes 40 .. 60 and the ages 1 .. kMaxAge the program means. */
  ghost predicate IntendedDraws(rows: nat, cols: nat, alive: seq<seq<bool>>, age: seq<seq<int>>)
  {
    Drawn(rows, 40, 60) && Drawn(cols, 40, 60) && Shaped(rows, cols, alive, age) &&
    forall i, j :: 0 <= i < rows && 0 <= j < cols && alive[i][j] ==> Drawn(age[i][j], 1, KMaxAge)
  }

  /**
   * initRandomGrid as written: each size lies in 40 .. 61, and a live cell's
   * age in 1 .. kMaxAge + 1.
   */
  method InitRandomGrid(rowPick: nat, colPick: nat, alive: seq<seq<bool>>, age: seq<seq<int>>) returns (grid: Grid)
    requires AsWrittenDraws(rowPick, colPick, alive, age)
    ensures grid.Valid() && grid.rows == rowPick && grid.cols == colPick
    ensures 40 <= grid.rows <= 61 && 40 <= grid.cols <= 61
    ensures forall i, j :: grid.InBounds(i, j) ==>
              (grid.cells[i][j] == 0 <==> !alive[i][j]) && 0 <= grid.cells[i][j] <= KMaxAge + 1
  {
    grid := Populate(rowPick, colPick, alive, age);
  }

  /** Some draws initRandomGrid can get give a 61 x 61 grid whose cells have age kMaxAge + 1. */
  lemma AsWrittenExceedsIntended()
    ensures var alive, age := seq(61, _ => seq(61, _ => true)), seq(61, _ => seq(61, _ => KMaxAge + 1));
            AsWrittenDraws(61, 61, alive, age) &&
            RandomGrid(61, 61, alive, age).rows == 61 &&
            RandomGrid(61, 61, alive, age).cells[0][0] == KMaxAge + 1
  {
  }

  /**
   * initRandomGrid with the intended draws randomInteger(40, 60) and
   * randomInteger(1, kMaxAge): sizes in 40 .. 60, live ages in 1 .. kMaxAge.
   */
  method InitRandomGridCorrected(rowPick: nat, colPick: nat, alive: seq<seq<bool>>, age: seq<seq<int>>) returns (grid: Grid)
    requires IntendedDraws(rowPick, colPick, alive, age)
    ensures grid.Valid() && grid.rows == rowPick && grid.cols == colPick
    ensures 40 <= grid.rows <= 60 && 40 <= grid.cols <= 60
    ensures forall i, j :: grid.InBounds(i, j) ==>
              (grid.cells[i][j] == 0 <==> !alive[i][j]) && 0 <= grid.cells[i][j] <= KMaxAge
  {
    grid := Populate(rowPick, colPick, alive, age);
  }
}
