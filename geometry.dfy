/** The triangular shape of the tree: rows 1 .. TreeSize - 1, row r holding
    2r - 1 slots whose column offsets are centred on zero. */
module Geometry {

  /** The configured tree height; the board has TreeSize - 1 rows. */
  const TreeSize: int := 40

  /** `slotsCount` of a row: odd and positive for a row of the board, and
      not positive below row 1, where the loop draws nothing. */
  function SlotsCount(r: int): (n: int)
    ensures r >= 1 ==> n >= 1 && n % 2 == 1
    ensures r < 1 ==> n <= 0
  {
    r * 2 - 1
  }

  /** `startCol`, the negated floor of half the slot count; `/` by a positive
      divisor rounds down in Dafny as `Math.floor` does. */
  function StartCol(r: int): (c: int)
    ensures r >= 1 ==> c == -(r - 1)
    ensures r >= 1 ==> c + SlotsCount(r) - 1 == -c
  {
    -(SlotsCount(r) / 2)
  }

  /** The column offsets the render loop visits for row r, in visiting
      order. A row below 1 has a negative slot count and is empty. */
  function Columns(r: int): (cols: seq<int>)
    ensures |cols| == if r >= 1 then 2 * r - 1 else 0
    ensures forall i :: 0 <= i < |cols| ==> cols[i] == i - (r - 1)
  {
    if SlotsCount(r) <= 0 then [] else seq(SlotsCount(r), i => StartCol(r) + i)
  }

  /** A position the board renders. */
  predicate OnBoard(r: int, c: int) {
    1 <= r < TreeSize && -(r - 1) <= c <= r - 1
  }

  /** Row r's columns are exactly the integers -(r-1) .. r-1, strictly
      increasing, without gaps, and mirror images of each other about zero. */
  lemma ColumnsShape(r: int)
    requires r >= 1
    ensures Columns(r)[0] == -(r - 1) && Columns(r)[|Columns(r)| - 1] == r - 1
    ensures forall i :: 0 <= i < |Columns(r)| - 1 ==> Columns(r)[i + 1] == Columns(r)[i] + 1
    ensures forall i, j :: 0 <= i < j < |Columns(r)| ==> Columns(r)[i] < Columns(r)[j]
    ensures forall i :: 0 <= i < |Columns(r)| ==> Columns(r)[|Columns(r)| - 1 - i] == -Columns(r)[i]
    ensures forall c :: c in Columns(r) <==> -(r - 1) <= c <= r - 1
  {
    var cols := Columns(r);
    forall c | -(r - 1) <= c <= r - 1
      ensures c in cols
    {
      assert cols[c + r - 1] == c;
    }
  }

  lemma RowOneIsCentre()
    ensures Columns(1) == [0]
  {
  }

  /** The positions the render loop visits are exactly the on-board ones. */
  lemma OnBoardIffVisited(r: int, c: int)
    ensures OnBoard(r, c) <==> 1 <= r < TreeSize && c in Columns(r)
  {
    if 1 <= r {
      ColumnsShape(r);
    }
  }

  /** Number of slots in rows 1 .. n. */
  function SlotsUpTo(n: nat): nat {
    if n == 0 then 0 else SlotsUpTo(n - 1) + |Columns(n)|
  }

  lemma {:induction false} SlotsUpToSquare(n: nat)
    ensures SlotsUpTo(n) == n * n
  {
    if n > 0 {
      SlotsUpToSquare(n - 1);
      assert |Columns(n)| == 2 * n - 1;
      assert (n - 1) * (n - 1) == n * n - 2 * n + 1;
    }
  }

  /** The whole board has (TreeSize - 1)^2 = 1521 slots. */
  lemma BoardSlotCount()
    ensures SlotsUpTo(TreeSize - 1) == (TreeSize - 1) * (TreeSize - 1) == 1521
  {
    SlotsUpToSquare(TreeSize - 1);
  }
}
