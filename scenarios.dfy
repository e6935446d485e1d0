/** Small colonies whose next generation, or whose file, can be worked out by hand. */
module Scenarios {
  import opened Results
  import opened Grids
  import opened Generation
  import opened ColonyFile
  import opened StringToInt

  const Block := Grid(4, 4, [[0, 0, 0, 0], [0, 1, 1, 0], [0, 1, 1, 0], [0, 0, 0, 0]])
  const OldBlock := Grid(4, 4, [[0, 0, 0, 0], [0, 5, 2, 0], [0, 7, 12, 0], [0, 0, 0, 0]])

  /** Step(g) is h as soon as h has g's shape and the next age of every cell. */
  lemma StepMatches(g: Grid, h: Grid)
    requires g.Valid() && h.Valid() && h.rows == g.rows && h.cols == g.cols
    requires forall i, j :: 0 <= i < g.rows && 0 <= j < g.cols ==> NextCell(g, i, j) == h.cells[i][j]
    ensures Step(g) == h
  {
    SameGridIsEquality(Step(g), h);
  }

  lemma BlockRow(i: int)
    requires 0 <= i < 4
    ensures forall j :: 0 <= j < 4 ==> NextCell(Block, i, j) == Block.cells[i][j]
  {
    forall j | 0 <= j < 4 ensures NextCell(Block, i, j) == Block.cells[i][j] {
      LiveNeighborsExpanded(Block, i, j);
    }
  }

  lemma OldBlockRow(i: int)
    requires 0 <= i < 4
    ensures forall j :: 0 <= j < 4 ==> NextCell(OldBlock, i, j) == Block.cells[i][j]
  {
    forall j | 0 <= j < 4 ensures NextCell(OldBlock, i, j) == Block.cells[i][j] {
      LiveNeighborsExpanded(OldBlock, i, j);
    }
  }

  const Lone := Grid(3, 3, [[0, 0, 0], [0, 1, 0], [0, 0, 0]])
  const Tromino := Grid(3, 3, [[1, 1, 0], [1, 0, 0], [0, 0, 0]])
  const TrominoBlock := Grid(3, 3, [[1, 1, 0], [1, 1, 0], [0, 0, 0]])

  lemma LoneRow(i: int)
    requires 0 <= i < 3
    ensures forall j :: 0 <= j < 3 ==> NextCell(Lone, i, j) == Zeros(3, 3).cells[i][j]
  {
    forall j | 0 <= j < 3 ensures NextCell(Lone, i, j) == Zeros(3, 3).cells[i][j] {
      LiveNeighborsExpanded(Lone, i, j);
    }
  }

  lemma TrominoRow(i: int)
    requires 0 <= i < 3
    ensures forall j :: 0 <= j < 3 ==> NextCell(Tromino, i, j) == TrominoBlock.cells[i][j]
  {
    forall j | 0 <= j < 3 ensures NextCell(Tromino, i, j) == TrominoBlock.cells[i][j] {
      LiveNeighborsExpanded(Tromino, i, j);
    }
  }

  /** A lone cell dies of isolation. */
  lemma LoneCellDies()
    ensures Step(Lone) == Zeros(3, 3)
  {
    forall i | 0 <= i < 3 ensures forall j :: 0 <= j < 3 ==> NextCell(Lone, i, j) == Zeros(3, 3).cells[i][j] {
      LoneRow(i);
    }
    StepMatches(Lone, Zeros(3, 3));
  }

  /** Three cells in an L give birth to a fourth; the L becomes a block. */
  lemma TrominoCompletesBlock()
    ensures Step(Tromino) == TrominoBlock
  {
    forall i | 0 <= i < 3 ensures forall j :: 0 <= j < 3 ==> NextCell(Tromino, i, j) == TrominoBlock.cells[i][j] {
      TrominoRow(i);
    }
    StepMatches(Tromino, TrominoBlock);
  }

  /** A 2 x 2 block of age-1 cells is a still life. */
  lemma BlockIsStable()
    ensures IsStable(Block, Step(Block)) && Step(Block) == Block
  {
    forall i | 0 <= i < 4 ensures forall j :: 0 <= j < 4 ==> NextCell(Block, i, j) == Block.cells[i][j] {
      BlockRow(i);
    }
    StepMatches(Block, Block);
    SameGridIsEquality(Block, Block);
  }

  /**
   * Each cell of a block has 3 live neighbours, so a block of older cells is
   * not stable: the step resets every age to 1.
   */
  lemma OldBlockIsReset()
    ensures Step(OldBlock) == Block && !IsStable(OldBlock, Step(OldBlock))
  {
    forall i | 0 <= i < 4 ensures forall j :: 0 <= j < 4 ==> NextCell(OldBlock, i, j) == Block.cells[i][j] {
      OldBlockRow(i);
    }
    StepMatches(OldBlock, Block);
    assert OldBlock.cells[1][1] != Block.cells[1][1];
  }

  const PlusFile := ["# plus", "3", "3", ".X.", "XXX", ".X."]
  const Plus := Grid(3, 3, [[0, 1, 0], [1, 1, 1], [0, 1, 0]])

  lemma StoIThree()
    ensures StoI("3") == Ok(3)
  {
    StoIOfNumeral(3, []);
    assert Decimal(3) + [] == "3";
  }

  lemma StoITwelveThenLetters()
    ensures StoI("12abc") == Ok(12)
  {
    StoIOfNumeral(12, "abc");
    assert Decimal(12) + "abc" == "12abc";
  }

  lemma StoIPlusTwelve()
    ensures StoI("+12abc") == StoI("12abc")
  {
    StoIAfterPlus("12abc");
    assert "+12abc" == ['+'] + "12abc";
  }

  lemma StoIBlankPlusTwelve()
    ensures StoI(" +12abc") == StoI("+12abc")
  {
    StoIAfterSpace(' ', "+12abc");
    assert " +12abc" == [' '] + "+12abc";
  }

  /** stoi skips the blank, takes the plus sign and stops at the first letter. */
  lemma StoIOfSignedPadded()
    ensures StoI(" +12abc") == Ok(12)
  {
    StoIBlankPlusTwelve();
    StoIPlusTwelve();
    StoITwelveThenLetters();
  }

  lemma PlusFilePayload()
    ensures Payload(PlusFile) == ["3", "3"] + [".X.", "XXX", ".X."]
  {
    assert IsComment(PlusFile[0]);
    assert PlusFile[1..] == ["3", "3"] + [".X.", "XXX", ".X."];
    PayloadOfCommentFree(PlusFile[1..]);
  }

  /** Plus is the picture of the plus file's grid rows. */
  lemma PlusDepictsFile()
    ensures Depicts(Plus, [".X.", "XXX", ".X."])
  {
  }

  /** Every 'X' of the plus file's grid rows lies on a 3 x 3 grid. */
  lemma PlusFits()
    ensures FitsGrid(3, 3, [".X.", "XXX", ".X."])
  {
  }

  /** The only 3 x 3 grid that depicts the plus file's grid rows is Plus. */
  lemma OnlyPlusDepictsFile(g: Grid)
    requires g.Valid() && g.rows == 3 && g.cols == 3 && Depicts(g, [".X.", "XXX", ".X."])
    ensures g == Plus
  {
    PlusDepictsFile();
    DepictedGridsAgree(g, Plus, [".X.", "XXX", ".X."]);
  }

  /** The plus-shaped colony of a three-by-three file. */
  lemma PlusColonyFile()
    ensures ParseColony(Zeros(0, 0), PlusFile) == Ok(Plus)
  {
    StoIThree();
    PlusFilePayload();
    PlusFits();
    ParseWellFormed(Zeros(0, 0), PlusFile, "3", "3", [".X.", "XXX", ".X."], 3, 3);
    OnlyPlusDepictsFile(ParseColony(Zeros(0, 0), PlusFile).value);
  }

  const OneCellFile := ["1", "1", "X", ".."]
  const OneCell := Grid(1, 1, [[1]])

  lemma StoIOne()
    ensures StoI("1") == Ok(1)
  {
    StoIOfNumeral(1, []);
    assert Decimal(1) + [] == "1";
  }

  lemma OneCellDepictsFile()
    ensures FitsGrid(1, 1, ["X", ".."]) && Depicts(OneCell, ["X", ".."])
  {
  }

  lemma OnlyOneCellDepictsFile(g: Grid)
    requires g.Valid() && g.rows == 1 && g.cols == 1 && Depicts(g, ["X", ".."])
    ensures g == OneCell
  {
    OneCellDepictsFile();
    DepictedGridsAgree(g, OneCell, ["X", ".."]);
  }

  /**
   * A grid row line past the last row is read, and with no 'X' on it writes
   * nothing: the 1 x 1 file with a second row ".." gives the single live cell.
   */
  lemma RowPastLastWithoutXIsIgnored()
    ensures ParseColony(Zeros(0, 0), OneCellFile) == Ok(OneCell)
  {
    StoIOne();
    PayloadOfCommentFree(OneCellFile);
    assert OneCellFile == ["1", "1"] + ["X", ".."];
    OneCellDepictsFile();
    ParseWellFormed(Zeros(0, 0), OneCellFile, "1", "1", ["X", ".."], 1, 1);
    OnlyOneCellDepictsFile(ParseColony(Zeros(0, 0), OneCellFile).value);
  }

  /**
   * A colony read from a file holds only ages 0 and 1, and so does its next
   * generation (and, by StepKeepsAgesWithin, every later one): such a colony
   * never shows its cells ageing.
   */
  lemma FileColoniesNeverAge(grid: Grid, lines: seq<string>, rowLine: string, colLine: string, data: seq<string>, row: int, col: int)
    requires grid.Valid()
    requires Payload(lines) == [rowLine, colLine] + data && data != []
    requires StoI(rowLine) == Ok(row) && row != 0 && StoI(colLine) == Ok(col) && col != 0
    requires ParseColony(grid, lines).Ok?
    ensures AgesWithin(ParseColony(grid, lines).value, 1)
    ensures AgesWithin(Step(ParseColony(grid, lines).value), 1)
  {
    ParseWellFormed(grid, lines, rowLine, colLine, data, row, col);
    var g := ParseColony(grid, lines).value;
    assert AgesWithin(g, 1) by {
      forall i, j | 0 <= i < g.rows && 0 <= j < g.cols ensures 0 <= g.cells[i][j] <= 1 {
        assert g.InBounds(i, j);
      }
    }
    StepKeepsAgesWithin(g, 1);
  }
}
