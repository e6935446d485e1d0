/**
 * initFileGrid: reading a colony file, given as its sequence of lines.
 *
 * Lines starting with '#' are skipped. The first other line is the row
 * count and the second the column count, both converted by stoi, where 0
 * doubles as "not read yet". Every later line is a grid row: on the first
 * one the grid is resized to rows x cols and zero-filled, and each 'X' of a
 * line sets the cell at (line number, character index) to 1.
 */
module ColonyFile {
  import opened Results
  import opened Grids
  import opened StringToInt

  datatype ParseError =
    | BadHeader(line: string, reason: StoIError)   // stoi raised on a header line
    | NegativeSize(rows: int, cols: int)           // the resize was asked for a negative size
    | OutOfBounds(row: int, col: int)              // an 'X' lies outside the grid

  /**
   * The state of the reading loop: the row and column counts (0 while not
   * read), the index of the next grid row, and the grid.
   */
  datatype Reader = Reader(row: int, col: int, rIndex: nat, grid: Grid)

  /**
   * `line[0] == '#'`: only the very first character decides. An empty line
   * has the terminator there and an indented line a blank, so neither is a
   * comment.
   */
  function IsComment(line: string): (b: bool)
    ensures b ==> |line| > 0 && line[0] == '#'
    ensures |line| == 0 ==> !b
    ensures |line| > 0 && IsSpace(line[0]) ==> !b
  {
    |line| > 0 && line[0] == '#'
  }

  /** Every cell is 0 or 1, as the file's '.' and 'X' paint them. */
  predicate IsBitGrid(g: Grid)
    requires g.Valid()
  {
    forall i, j :: 0 <= i < g.rows && 0 <= j < g.cols ==> 0 <= g.cells[i][j] <= 1
  }

  /** The cell writes of one grid row, from character c on. */
  function PaintFrom(g: Grid, r: nat, line: string, c: nat): (res: Result<Grid, ParseError>)
    requires g.Valid() && c <= |line|
    ensures res.Ok? ==> res.value.Valid() && res.value.rows == g.rows && res.value.cols == g.cols
    ensures res.Ok? && IsBitGrid(g) ==> IsBitGrid(res.value)
    decreases |line| - c
  {
    if c == |line| then Ok(g)
    else if line[c] == 'X' then
      if g.InBounds(r, c) then PaintFrom(g.Set(r, c, 1), r, line, c + 1) else Err(OutOfBounds(r, c))
    else PaintFrom(g, r, line, c + 1)
  }

  /** One turn of the reading loop. */
  function Feed(s: Reader, line: string): (res: Result<Reader, ParseError>)
    requires s.grid.Valid()
    ensures res.Ok? ==> res.value.grid.Valid()
    ensures res.Ok? && s.rIndex == 0 ==>
              (res.value.rIndex == 0 && res.value.grid == s.grid) || (res.value.rIndex > 0 && IsBitGrid(res.value.grid))
    ensures res.Ok? && s.rIndex > 0 && IsBitGrid(s.grid) ==> res.value.rIndex > 0 && IsBitGrid(res.value.grid)
  {
    if IsComment(line) then Ok(s)
    else if s.row == 0 then
      match StoI(line)
      case Err(e) => Err(BadHeader(line, e))
      case Ok(v) => Ok(s.(row := v))
    else if s.col == 0 then
      match StoI(line)
      case Err(e) => Err(BadHeader(line, e))
      case Ok(v) => Ok(s.(col := v))
    else if s.rIndex == 0 && (s.row < 0 || s.col < 0) then
      Err(NegativeSize(s.row, s.col))
    else
      var g := if s.rIndex == 0 then s.grid.Resize(s.row, s.col).Fill(0) else s.grid;
      match PaintFrom(g, s.rIndex, line, 0)
      case Err(e) => Err(e)
      case Ok(g') => Ok(Reader(s.row, s.col, s.rIndex + 1, g'))
  }

  /** The rest of the loop, from state s over the remaining lines. */
  function Run(s: Reader, lines: seq<string>): (res: Result<Reader, ParseError>)
    requires s.grid.Valid()
    ensures res.Ok? ==> res.value.grid.Valid()
    ensures res.Ok? && s.rIndex == 0 ==>
              (res.value.rIndex == 0 && res.value.grid == s.grid) || (res.value.rIndex > 0 && IsBitGrid(res.value.grid))
    ensures res.Ok? && s.rIndex > 0 && IsBitGrid(s.grid) ==> res.value.rIndex > 0 && IsBitGrid(res.value.grid)
    decreases |lines|
  {
    if |lines| == 0 then Ok(s)
    else
      match Feed(s, lines[0])
      case Err(e) => Err(e)
      case Ok(s') => Run(s', lines[1..])
  }

  /** The grid after reading the file into `grid`, or the error that stops the reading. */
  function ParseColony(grid: Grid, lines: seq<string>): (res: Result<Grid, ParseError>)
    requires grid.Valid()
    ensures res.Ok? ==> res.value.Valid()
    ensures res.Ok? ==> res.value == grid || IsBitGrid(res.value)
  {
    match Run(Reader(0, 0, 0, grid), lines)
    case Ok(s) => Ok(s.grid)
    case Err(e) => Err(e)
  }

  /**
   * initFileGrid. The grid it receives by reference is `grid` here, and the
   * grid it leaves behind is the Ok value; an exception becomes an Err.
   */
  method InitFileGrid(grid: Grid, lines: seq<string>) returns (res: Result<Grid, ParseError>)
    requires grid.Valid()
    ensures res == ParseColony(grid, lines)
  {
    var g := grid;
    var row, col := 0, 0;
    var rIndex: nat := 0;
    var i := 0;
    while i < |lines|
      invariant i <= |lines| && g.Valid()
      invariant Run(Reader(row, col, rIndex, g), lines[i..]) == Run(Reader(0, 0, 0, grid), lines)
    {
      var line := lines[i];
      ghost var before := Reader(row, col, rIndex, g);
      assert lines[i..][1..] == lines[i + 1..];
      if IsComment(line) {
      } else if row == 0 {
        var v := StoI(line);
        if v.Err? {
          return Err(BadHeader(line, v.error));
        }
        row := v.value;
      } else if col == 0 {
        var v := StoI(line);
        if v.Err? {
          return Err(BadHeader(line, v.error));
        }
        col := v.value;
      } else {
        if rIndex == 0 {
          if row < 0 || col < 0 {
            return Err(NegativeSize(row, col));
          }
          g := g.Resize(row, col);
          g := g.Fill(0);
        }
        ghost var start := g;
        for c := 0 to |line|
          invariant g.Valid() && g.rows == start.rows && g.cols == start.cols
          invariant PaintFrom(g, rIndex, line, c) == PaintFrom(start, rIndex, line, 0)
        {
          if line[c] == 'X' {
            if !g.InBounds(rIndex, c) {
              return Err(OutOfBounds(rIndex, c));
            }
            g := g.Set(rIndex, c, 1);
          }
        }
        rIndex := rIndex + 1;
      }
      assert Feed(before, line) == Ok(Reader(row, col, rIndex, g));
      i := i + 1;
    }
    return Ok(g);
  }

  // ----- What a colony file means -----

  /** The lines that are not comments, in order. */
  function Payload(lines: seq<string>): (p: seq<string>)
    ensures |p| <= |lines|
    ensures forall k :: 0 <= k < |p| ==> !IsComment(p[k])
  {
    if |lines| == 0 then []
    else (if IsComment(lines[0]) then [] else [lines[0]]) + Payload(lines[1..])
  }

  /** Grid row i of the file has an 'X' at character j. */
  predicate ColonyCell(data: seq<string>, i: int, j: int)
  {
    0 <= i < |data| && 0 <= j < |data[i]| && data[i][j] == 'X'
  }

  /** Every 'X' of the grid rows lies inside rows x cols. */
  ghost predicate FitsGrid(rows: int, cols: int, data: seq<string>)
  {
    forall i, j :: ColonyCell(data, i, j) ==> i < rows && j < cols
  }

  /** g holds 1 where the grid rows have an 'X' and 0 everywhere else. */
  ghost predicate Depicts(g: Grid, data: seq<string>)
    requires g.Valid()
  {
    forall i, j :: g.InBounds(i, j) ==> g.cells[i][j] == if ColonyCell(data, i, j) then 1 else 0
  }

  /** Two grids of one shape that depict the same grid rows are the same grid. */
  lemma DepictedGridsAgree(g: Grid, h: Grid, data: seq<string>)
    requires g.Valid() && h.Valid() && g.rows == h.rows && g.cols == h.cols
    requires Depicts(g, data) && Depicts(h, data)
    ensures g == h
  {
    SameGridIsEquality(g, h);
  }

  /**
   * A grid row writes 1 at each 'X' from character c on, and nothing else;
   * it fails at the first 'X' outside the grid, exactly when there is one.
   */
  lemma {:induction false} PaintMeaning(g: Grid, r: nat, line: string, c: nat)
    requires g.Valid() && c <= |line|
    ensures PaintFrom(g, r, line, c).Ok? <==>
              forall j :: c <= j < |line| && line[j] == 'X' ==> g.InBounds(r, j)
    ensures PaintFrom(g, r, line, c).Ok? ==>
              forall i, j :: g.InBounds(i, j) ==>
                PaintFrom(g, r, line, c).value.cells[i][j] ==
                  if i == r && c <= j < |line| && line[j] == 'X' then 1 else g.cells[i][j]
    ensures PaintFrom(g, r, line, c).Err? ==>
              var e := PaintFrom(g, r, line, c).error;
              e.OutOfBounds? && e.row == r && c <= e.col < |line| && line[e.col] == 'X' &&
              !g.InBounds(r, e.col) &&
              forall j :: c <= j < e.col && line[j] == 'X' ==> g.InBounds(r, j)
    decreases |line| - c
  {
    if c < |line| {
      if line[c] == 'X' {
        if g.InBounds(r, c) {
          var g' := g.Set(r, c, 1);
          PaintMeaning(g', r, line, c + 1);
          if PaintFrom(g', r, line, c + 1).Ok? {
            var h := PaintFrom(g', r, line, c + 1).value;
            forall i, j | g.InBounds(i, j)
              ensures h.cells[i][j] == if i == r && c <= j < |line| && line[j] == 'X' then 1 else g.cells[i][j]
            {
              assert g'.InBounds(i, j);
            }
          }
        }
      } else {
        PaintMeaning(g, r, line, c + 1);
      }
    }
  }

  /**
   * Reading grid rows `rest` after rows `done`: it succeeds exactly when all
   * of their 'X's fit, and then the grid depicts them all; otherwise it stops
   * at an 'X' that does not fit.
   */
  lemma {:induction false} GridRowsMeaning(s: Reader, done: seq<string>, rest: seq<string>)
    requires s.grid.Valid() && s.row > 0 && s.col > 0 && s.rIndex == |done|
    requires |done| > 0 ==> s.grid.rows == s.row && s.grid.cols == s.col && Depicts(s.grid, done)
    requires FitsGrid(s.row, s.col, done)
    requires forall k :: 0 <= k < |rest| ==> !IsComment(rest[k])
    ensures Run(s, rest).Ok? <==> FitsGrid(s.row, s.col, done + rest)
    ensures Run(s, rest).Ok? ==>
              var t := Run(s, rest).value;
              t.row == s.row && t.col == s.col && t.rIndex == |done + rest| &&
              (|done + rest| == 0 ==> t.grid == s.grid) &&
              (|done + rest| > 0 ==> t.grid.rows == s.row && t.grid.cols == s.col && Depicts(t.grid, done + rest))
    ensures Run(s, rest).Err? ==>
              var e := Run(s, rest).error;
              e.OutOfBounds? && ColonyCell(done + rest, e.row, e.col) && !(e.row < s.row && e.col < s.col)
    decreases |rest|
  {
    if |rest| == 0 {
      assert done + rest == done;
    } else {
      var line := rest[0];
      var r := |done|;
      var g := if s.rIndex == 0 then s.grid.Resize(s.row, s.col).Fill(0) else s.grid;
      assert g.rows == s.row && g.cols == s.col;
      assert Depicts(g, done);
      var done' := done + [line];
      assert done' + rest[1..] == done + rest;
      PaintMeaning(g, r, line, 0);
      var painted := PaintFrom(g, r, line, 0);
      if painted.Ok? {
        var g' := painted.value;
        assert Depicts(g', done') by {
          forall i, j | g'.InBounds(i, j)
            ensures g'.cells[i][j] == if ColonyCell(done', i, j) then 1 else 0
          {
            assert g.InBounds(i, j);
            if i < r {
              assert ColonyCell(done', i, j) == ColonyCell(done, i, j);
            }
          }
        }
        assert FitsGrid(s.row, s.col, done') by {
          forall i, j | ColonyCell(done', i, j) ensures i < s.row && j < s.col {
            if i < r {
              assert ColonyCell(done, i, j);
            } else {
              assert line[j] == 'X';
            }
          }
        }
        GridRowsMeaning(Reader(s.row, s.col, s.rIndex + 1, g'), done', rest[1..]);
      } else {
        var e := painted.error;
        assert ColonyCell(done + rest, e.row, e.col);
      }
    }
  }

  lemma {:induction false} CommentsIgnored(s: Reader, lines: seq<string>)
    requires s.grid.Valid()
    ensures Run(s, lines) == Run(s, Payload(lines))
    decreases |lines|
  {
    if |lines| > 0 {
      var p := Payload(lines[1..]);
      if IsComment(lines[0]) {
        assert Payload(lines) == p;
        CommentsIgnored(s, lines[1..]);
      } else {
        assert Payload(lines) == [lines[0]] + p;
        assert Payload(lines)[1..] == p;
        match Feed(s, lines[0])
        case Err(_) =>
        case Ok(s') => CommentsIgnored(s', lines[1..]);
      }
    }
  }

  /** The first non-comment line sets the row count. */
  lemma RowHeaderRead(s: Reader, line: string, v: int)
    requires s.grid.Valid() && s.row == 0 && !IsComment(line) && StoI(line) == Ok(v)
    ensures Feed(s, line) == Ok(s.(row := v))
  {
  }

  /** Once the row count is non-zero, the next non-comment line sets the column count. */
  lemma ColHeaderRead(s: Reader, line: string, v: int)
    requires s.grid.Valid() && s.row != 0 && s.col == 0 && !IsComment(line) && StoI(line) == Ok(v)
    ensures Feed(s, line) == Ok(s.(col := v))
  {
  }

  /** Once both size lines are read, the reading goes on from the grid rows, with the sizes set. */
  lemma HeadersRead(grid: Grid, lines: seq<string>, rowLine: string, colLine: string, data: seq<string>, row: int, col: int)
    requires grid.Valid()
    requires Payload(lines) == [rowLine, colLine] + data
    requires StoI(rowLine) == Ok(row) && row != 0
    requires StoI(colLine) == Ok(col) && col != 0
    ensures Run(Reader(0, 0, 0, grid), lines) == Run(Reader(row, col, 0, grid), data)
    ensures forall k :: 0 <= k < |data| ==> !IsComment(data[k])
  {
    var init := Reader(0, 0, 0, grid);
    CommentsIgnored(init, lines);
    var p := Payload(lines);
    assert p[1..] == [colLine] + data && p[1..][1..] == data;
    RowHeaderRead(init, rowLine, row);
    ColHeaderRead(init.(row := row), colLine, col);
    assert forall k :: 0 <= k < |data| ==> data[k] == p[k + 2];
  }

  /**
   * A well-formed file: after the two non-zero header values come the grid
   * rows. No grid row leaves the grid as it was; otherwise a negative size is
   * refused, and a positive one gives the rows x cols grid with 1 exactly at
   * the 'X's, provided every 'X' fits, and an out-of-bounds error at an 'X'
   * that does not.
   */
  lemma ParseWellFormed(grid: Grid, lines: seq<string>, rowLine: string, colLine: string, data: seq<string>, row: int, col: int)
    requires grid.Valid()
    requires Payload(lines) == [rowLine, colLine] + data
    requires StoI(rowLine) == Ok(row) && row != 0
    requires StoI(colLine) == Ok(col) && col != 0
    ensures data == [] ==> ParseColony(grid, lines) == Ok(grid)
    ensures data != [] && (row < 0 || col < 0) ==> ParseColony(grid, lines) == Err(NegativeSize(row, col))
    ensures data != [] && 0 < row && 0 < col ==>
              (ParseColony(grid, lines).Ok? <==> FitsGrid(row, col, data))
    ensures data != [] && 0 < row && 0 < col && ParseColony(grid, lines).Ok? ==>
              var g := ParseColony(grid, lines).value;
              g.rows == row && g.cols == col && Depicts(g, data)
    ensures data != [] && 0 < row && 0 < col && ParseColony(grid, lines).Err? ==>
              var e := ParseColony(grid, lines).error;
              e.OutOfBounds? && ColonyCell(data, e.row, e.col) && !(e.row < row && e.col < col)
  {
    HeadersRead(grid, lines, rowLine, colLine, data, row, col);
    if data != [] && (row < 0 || col < 0) {
      assert !IsComment(data[0]);
      assert Feed(Reader(row, col, 0, grid), data[0]) == Err(NegativeSize(row, col));
    } else if data != [] && 0 < row && 0 < col {
      GridRowsMeaning(Reader(row, col, 0, grid), [], data);
      assert [] + data == data;
    }
  }

  /**
   * stoi raising on a header line ends the reading with that error: on the
   * first non-comment line, or on the second one once the first gave a
   * non-zero row count.
   */
  lemma HeadersMustConvert(grid: Grid, lines: seq<string>, rowLine: string, rest: seq<string>)
    requires grid.Valid()
    requires Payload(lines) == [rowLine] + rest
    ensures StoI(rowLine).Err? ==> ParseColony(grid, lines) == Err(BadHeader(rowLine, StoI(rowLine).error))
    ensures StoI(rowLine).Ok? && StoI(rowLine).value != 0 && |rest| > 0 && StoI(rest[0]).Err? ==>
              ParseColony(grid, lines) == Err(BadHeader(rest[0], StoI(rest[0]).error))
  {
    var init := Reader(0, 0, 0, grid);
    CommentsIgnored(init, lines);
    var p := Payload(lines);
    assert !IsComment(p[0]) && p[1..] == rest;
    if |rest| > 0 {
      assert !IsComment(p[1]) && rest[0] == p[1];
    }
  }

  /** Comment-free lines are their own payload. */
  lemma {:induction false} PayloadOfCommentFree(lines: seq<string>)
    requires forall k :: 0 <= k < |lines| ==> !IsComment(lines[k])
    ensures Payload(lines) == lines
    decreases |lines|
  {
    if |lines| > 0 {
      PayloadOfCommentFree(lines[1..]);
      assert [lines[0]] + lines[1..] == lines;
    }
  }

  /**
   * A header value of 0 is taken for "not read yet": the file reads as if
   * that line were not there, and the next line is read as the same header.
   */
  lemma ZeroHeaderIsReread(grid: Grid, lines: seq<string>, before: seq<string>, zeroLine: string, rest: seq<string>)
    requires grid.Valid()
    requires Payload(lines) == before + [zeroLine] + rest
    requires |before| <= 1 && (|before| == 1 ==> StoI(before[0]).Ok? && StoI(before[0]).value != 0)
    requires StoI(zeroLine) == Ok(0)
    ensures ParseColony(grid, lines) == ParseColony(grid, before + rest)
  {
    var init := Reader(0, 0, 0, grid);
    var p := Payload(lines);
    CommentsIgnored(init, lines);
    CommentsIgnored(init, before + rest);
    assert forall k :: 0 <= k < |before + rest| ==> (before + rest)[k] == p[if k < |before| then k else k + 1];
    PayloadOfCommentFree(before + rest);
    if |before| == 0 {
      assert p == [zeroLine] + rest && p[1..] == rest && before + rest == rest;
      assert Feed(init, zeroLine) == Ok(init);
    } else {
      var headed := init.(row := StoI(before[0]).value);
      assert Feed(init, before[0]) == Ok(headed);
      assert p[1..] == [zeroLine] + rest && p[1..][1..] == rest;
      assert Feed(headed, zeroLine) == Ok(headed);
      assert (before + rest)[1..] == rest;
    }
  }
}
