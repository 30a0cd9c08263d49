/** `move_row_up` and `move_row_down`: moving to the physically adjacent
    row, whose index runs differently per series. Series 5 numbers the rows
    of both halves upwards, with the bottom half below the top half; series
    6 and 7 number them away from the centre line in each half; series 8
    has a single half. */
module Rows {
  import opened Wrappers
  import opened Codec
  import opened Cursor

  /** Where `move_row_up` leaves the cursor before it looks up the column
      again, or `None` at the top edge. Only the half and the row change.
      Every branch first reads the length of the current half; where that
      half is missing the read raises with the cursor where it was, which
      `Some(x)` stands for (a cursor with no path in the store). */
  function RowUp(series: int, sh: Shape, x: Coord): Option<Coord>
  {
    if !(x.t < |sh| && x.h < |sh[x.t]|) then Some(x)
    else
      var n := |sh[x.t][x.h]|;
      if series == 5 then
        if x.r + 1 < n then Some(x.(r := x.r + 1))
        else if x.h == 1 then Some(x.(h := 0, r := 0))
        else None
      else if series == 6 || series == 7 then
        if x.r + 1 < n && x.h == 0 then Some(x.(r := x.r + 1))
        else if x.r > 0 && x.h == 1 then Some(x.(r := x.r - 1))
        else if x.r == 0 && x.h == 1 then Some(x.(h := 0, r := 0))
        else None
      else if series == 8 then
        if x.r + 1 < n then Some(x.(r := x.r + 1)) else None
      else Some(x)
  }

  /** Where `move_row_down` leaves the cursor before it looks up the column
      again, or `None` at the bottom edge. The branches that only decrement
      the row, and the series 6 and 7 move into the bottom half, read no
      length; the others read the length of a half, and where that half is
      missing the read raises with the cursor as it stands, which `Some`
      stands for (a cursor with no path in the store). From row 0 of the
      series 5 top half the half becomes 1 before the read. */
  function RowDown(series: int, sh: Shape, x: Coord): Option<Coord>
  {
    if series == 5 then
      if x.r > 0 then Some(x.(r := x.r - 1))
      else if x.h == 0 then
        if x.t < |sh| && 1 < |sh[x.t]| then Some(x.(h := 1, r := LastRow(sh[x.t][1])))
        else Some(x.(h := 1))
      else None
    else if series == 6 || series == 7 then
      if x.r > 0 && x.h == 0 then Some(x.(r := x.r - 1))
      else if x.r == 0 && x.h == 0 then Some(x.(h := 1, r := 0))
      else if !(x.t < |sh| && x.h < |sh[x.t]|) then Some(x)
      else if x.r + 1 < |sh[x.t][x.h]| && x.h == 1 then Some(x.(r := x.r + 1))
      else None
    else if series == 8 then
      if x.r > 0 then Some(x.(r := x.r - 1)) else None
    else Some(x)
  }

  /** The index of the last row of a half; 0 for a half without rows, where
      the source's -1 is no natural number (the move then raises). */
  function LastRow(half: seq<seq<nat>>): (r: nat)
    ensures |half| > 0 ==> r == |half| - 1
  {
    if |half| > 0 then |half| - 1 else 0
  }

  /** A move changes only the half and the row, and lands on an existing
      row whenever the half it lands in exists. */
  lemma RowMoveStays(series: int, sh: Shape, x: Coord)
    requires 5 <= series <= 8 && WellFormed(sh, series != 8)
    requires x.t < |sh| && x.h < |sh[x.t]| && x.r < |sh[x.t][x.h]|
    ensures var y := RowUp(series, sh, x);
      y.Some? ==>
        (y.value.(h := x.h, r := x.r) == x && y.value.h < |sh[x.t]| && y.value.r < |sh[x.t][y.value.h]|)
    ensures var y := RowDown(series, sh, x);
      y.Some? ==>
        (y.value.(h := x.h, r := x.r) == x && (y.value.h < |sh[x.t]| ==> y.value.r < |sh[x.t][y.value.h]|))
  {
  }

  /** `move_row_down` undoes `move_row_up`. */
  lemma RowDownUndoesUp(series: int, sh: Shape, x: Coord)
    requires 5 <= series <= 8 && WellFormed(sh, series != 8)
    requires x.t < |sh| && x.h < |sh[x.t]| && x.r < |sh[x.t][x.h]|
    requires RowUp(series, sh, x).Some?
    ensures RowDown(series, sh, RowUp(series, sh, x).value) == Some(x)
  {
    if series == 8 {
      assert x.h == 0;
    }
  }

  /** `move_row_up` undoes `move_row_down`, when the half moved to exists. */
  lemma RowUpUndoesDown(series: int, sh: Shape, x: Coord)
    requires 5 <= series <= 8 && WellFormed(sh, series != 8)
    requires x.t < |sh| && x.h < |sh[x.t]| && x.r < |sh[x.t][x.h]|
    requires RowDown(series, sh, x).Some?
    requires RowDown(series, sh, x).value.h < |sh[x.t]|
    ensures RowUp(series, sh, RowDown(series, sh, x).value) == Some(x)
  {
    if series == 8 {
      assert x.h == 0;
    }
  }

  // ---------------------------------------------------------------------
  // The methods as written, reading a module-level `fradStructure` that
  // the module never defines

  datatype RowMove = Moved(y: Coord) | AtEdge | NameError

  /** `move_row_up` as written: the first test of every series' branch
      reads `len(fradStructure[...])`, so every call raises `NameError`. */
  function RowUpAsWritten(series: int, x: Coord): RowMove
  {
    if 5 <= series <= 8 then NameError else Moved(x)
  }

  /** `move_row_down` as written: the branches that decrement the row do
      not read the undefined name, the others raise `NameError` (series 5
      after already setting the half to 1). */
  function RowDownAsWritten(series: int, x: Coord): RowMove
  {
    if series == 5 then
      if x.r > 0 then Moved(x.(r := x.r - 1))
      else if x.h == 0 then NameError
      else AtEdge
    else if series == 6 || series == 7 then
      if x.r > 0 && x.h == 0 then Moved(x.(r := x.r - 1))
      else if x.r == 0 && x.h == 0 then Moved(x.(h := 1, r := 0))
      else NameError
    else if series == 8 then
      if x.r > 0 then Moved(x.(r := x.r - 1)) else AtEdge
    else Moved(x)
  }

  /** No call of `move_row_up` as written moves the row, although the
      intended move exists (here: from row 0 of a type with two rows). */
  lemma RowUpAsWrittenNeverMoves(series: int, x: Coord)
    requires 5 <= series <= 8
    ensures RowUpAsWritten(series, x) == NameError
    ensures RowUp(series, [[[[1], [1]], [[1], [1]]]], Origin) == Some(Origin.(r := 1))
  {
  }

  /** Where `move_row_down` as written does not raise, it agrees with the
      intended move; from the bottom half of series 6 and 7 it raises
      although the intended move exists. */
  lemma RowDownAsWrittenDiffers(series: int, sh: Shape, x: Coord)
    requires 5 <= series <= 8
    ensures RowDownAsWritten(series, x).Moved? ==> RowDown(series, sh, x) == Some(RowDownAsWritten(series, x).y)
    ensures RowDownAsWritten(series, x).AtEdge? ==> RowDown(series, sh, x).None?
    ensures RowDownAsWritten(6, Coord(0, 1, 0, 0, 0)) == NameError
    ensures RowDown(6, [[[[1], [1]], [[1], [1]]]], Coord(0, 1, 0, 0, 0)) == Some(Coord(0, 1, 1, 0, 0))
  {
  }
}
