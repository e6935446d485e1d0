/**
 * The constants shared by the simulation and its display: the age at which
 * cells stop fading, and the table of the eight neighbour offsets.
 */
module LifeConstants {

  /** Cells of age KMaxAge and above are drawn alike. */
  const KMaxAge: int := 12

  /** Number of entries in each offset table. */
  const DirLen: int := 8

  /** Row offsets of the neighbours, in table order. */
  const Dr: seq<int> := [-1, -1, -1,  0, 0,  1, 1, 1]

  /** Column offsets of the neighbours, in table order. */
  const Dc: seq<int> := [-1,  0,  1, -1, 1, -1, 0, 1]

  /** The k-th (row, column) offset of the table. */
  function Offset(k: nat): (p: (int, int))
    requires k < DirLen
    ensures -1 <= p.0 <= 1 && -1 <= p.1 <= 1
    ensures p != (0, 0)
  {
    (Dr[k], Dc[k])
  }

  /** The Moore neighbourhood of the origin: every unit step, straight or diagonal. */
  ghost function MooreOffsets(): set<(int, int)>
  {
    set i: int, j: int | -1 <= i <= 1 && -1 <= j <= 1 && (i, j) != (0, 0) :: (i, j)
  }

  /** The offsets the table lists. */
  ghost function TableOffsets(): set<(int, int)>
  {
    set k: nat | k < DirLen :: Offset(k)
  }

  lemma ConstantsAsDeclared()
    ensures KMaxAge == 12
    ensures DirLen == 8 && |Dr| == DirLen && |Dc| == DirLen
  {
  }

  /** Every offset component is -1, 0 or 1, and no offset is (0, 0). */
  lemma OffsetsAreUnitSteps()
    ensures forall k :: 0 <= k < DirLen ==> -1 <= Dr[k] <= 1 && -1 <= Dc[k] <= 1
    ensures forall k :: 0 <= k < DirLen ==> Dr[k] != 0 || Dc[k] != 0
  {
  }

  /** No two entries of the table name the same offset. */
  lemma OffsetsDistinct()
    ensures forall i, j :: 0 <= i < j < DirLen ==> Offset(i) != Offset(j)
  {
  }

  /** The table lists exactly the Moore neighbourhood. */
  lemma OffsetsAreMoore()
    ensures TableOffsets() == MooreOffsets()
  {
    forall p | p in MooreOffsets() ensures p in TableOffsets() {
      var k := MooreIndex(p);
    }
  }

  /** There are eight neighbours, one per table entry. */
  lemma MooreHasEight()
    ensures |MooreOffsets()| == DirLen
  {
    OffsetsAreMoore();
    assert TableOffsets() == {Offset(0), Offset(1), Offset(2), Offset(3), Offset(4), Offset(5), Offset(6), Offset(7)};
  }

  /** The table index of a Moore offset. */
  function MooreIndex(p: (int, int)): (k: nat)
    requires -1 <= p.0 <= 1 && -1 <= p.1 <= 1 && p != (0, 0)
    ensures k < DirLen && Offset(k) == p
  {
    if p.0 == -1 then (p.1 + 1) as nat
    else if p.0 == 0 then (if p.1 == -1 then 3 else 4)
    else (p.1 + 6) as nat
  }
}
