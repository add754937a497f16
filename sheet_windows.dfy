/**
 * source/view/sheet_window.py: the navigation state of the sheet view.  The
 * view scrolls by `current_row` / `current_col`, keeps a cursor `(row, col)`,
 * and sizes columns and rows by per-index overrides with defaults 8 and 1.
 * Every change clamps the position it moves at 0, and `process_char` maps
 * eight keys to a scroll or a cursor move.
 *
 * The `Window` part a sheet window inherits (its buffer and log, see
 * Windows) and the drawing of the page are not part of this model.
 */
module SheetWindows {
  import opened Common

  /** `default_col_width`: the width of a column without an override. */
  const DefaultColWidth := 8
  /** `default_row_height`: the height of a row without an override. */
  const DefaultRowHeight := 1

  /** What a key does: scroll vertically or horizontally, move the cursor, or nothing. */
  datatype Action = VScroll(amount: int) | HScroll(amount: int) | Move(dRow: int, dCol: int) | Ignore

  /** `process_char`'s key map: ^J, ^K, ^L and KEY_BACKSPACE (263) scroll; h, j, k, l move the cursor. */
  function KeyAction(ch: int): (a: Action)
    ensures a.Ignore? <==> ch !in {10, 11, 12, 263, 'j' as int, 'k' as int, 'l' as int, 'h' as int}
    ensures a.VScroll? <==> ch == 10 || ch == 11
    ensures a.HScroll? <==> ch == 12 || ch == 263
    ensures (a.VScroll? || a.HScroll?) ==> (a.amount == 1 || a.amount == -1)
    ensures a.Move? ==> (a.dRow == 0) != (a.dCol == 0) && -1 <= a.dRow <= 1 && -1 <= a.dCol <= 1
  {
    if ch == 10 then VScroll(1)
    else if ch == 11 then VScroll(-1)
    else if ch == 12 then HScroll(1)
    else if ch == 263 then HScroll(-1)
    else if ch == 'j' as int then Move(1, 0)
    else if ch == 'k' as int then Move(-1, 0)
    else if ch == 'l' as int then Move(0, 1)
    else if ch == 'h' as int then Move(0, -1)
    else Ignore
  }

  class SheetWindow {
    /** `column_widths` and `row_heights`: the overrides, by column and by row. */
    var columnWidths: map<int, int>
    var rowHeights: map<int, int>
    /** The first row and column shown. */
    var currentRow: int
    var currentCol: int
    /** The selected cell, (row, column). */
    var cursor: (int, int)

    /** Every position the view keeps is non-negative. */
    predicate NonNegative()
      reads this
    {
      currentRow >= 0 && currentCol >= 0 && cursor.0 >= 0 && cursor.1 >= 0
    }

    /** `__init__`'s navigation state: no overrides, scrolled to the origin, cursor at (0, 0). */
    constructor ()
      ensures columnWidths == map[] && rowHeights == map[]
      ensures currentRow == 0 && currentCol == 0 && cursor == (0, 0)
      ensures NonNegative()
    {
      columnWidths := map[];
      rowHeights := map[];
      currentRow := 0;
      currentCol := 0;
      cursor := (0, 0);
    }

    /** `get_column_width`: the override for `col`, else the default. */
    function GetColumnWidth(col: int): (w: int)
      reads this
      ensures col in columnWidths ==> w == columnWidths[col]
      ensures col !in columnWidths ==> w == DefaultColWidth
    {
      if col in columnWidths then columnWidths[col] else DefaultColWidth
    }

    /** `get_row_height`: the override for `row`, else the default. */
    function GetRowHeight(row: int): (h: int)
      reads this
      ensures row in rowHeights ==> h == rowHeights[row]
      ensures row !in rowHeights ==> h == DefaultRowHeight
    {
      if row in rowHeights then rowHeights[row] else DefaultRowHeight
    }

    /**
     * `get_row_label_offset`: the length of `str(current_row)` plus 2, that
     * is the number of decimal digits of the row, with its sign, plus 2.
     */
    function RowLabelOffset(): (n: int)
      reads this
      ensures currentRow >= 0 ==> 3 <= n && currentRow < Pow10(n - 2) && (n > 3 ==> Pow10(n - 3) <= currentRow)
      ensures currentRow < 0 ==> 4 <= n && -currentRow < Pow10(n - 3) && (n > 4 ==> Pow10(n - 4) <= -currentRow)
    {
      ShowNatDigits(if currentRow >= 0 then currentRow else -currentRow);
      |ShowInt(currentRow)| + 2
    }

    /** `move_cursor`: add the changes to the cursor, each coordinate clamped at 0. */
    method MoveCursor(rchange: int, cchange: int)
      modifies this
      ensures cursor == (Clamp(old(cursor).0 + rchange), Clamp(old(cursor).1 + cchange))
      ensures cursor.0 >= 0 && cursor.1 >= 0
      ensures old(cursor).0 + rchange >= 0 ==> cursor.0 == old(cursor).0 + rchange
      ensures old(cursor).1 + cchange >= 0 ==> cursor.1 == old(cursor).1 + cchange
      ensures currentRow == old(currentRow) && currentCol == old(currentCol)
      ensures columnWidths == old(columnWidths) && rowHeights == old(rowHeights)
    {
      var (r, c) := cursor;
      var newr := r + rchange;
      var newc := c + cchange;
      if newr < 0 {
        newr := 0;
      }
      if newc < 0 {
        newc := 0;
      }
      cursor := (newr, newc);
    }

    /** `vertical_scroll`: add `amount` to the first row shown, clamped at 0. */
    method VerticalScroll(amount: int)
      modifies this
      ensures currentRow == Clamp(old(currentRow) + amount)
      ensures old(currentRow) + amount >= 0 ==> currentRow == old(currentRow) + amount
      ensures currentCol == old(currentCol) && cursor == old(cursor)
      ensures columnWidths == old(columnWidths) && rowHeights == old(rowHeights)
    {
      var newAmount := currentRow + amount;
      if newAmount < 0 {
        newAmount := 0;
      }
      currentRow := newAmount;
    }

    /** `horizontal_scroll`: add `amount` to the first column shown, clamped at 0. */
    method HorizontalScroll(amount: int)
      modifies this
      ensures currentCol == Clamp(old(currentCol) + amount)
      ensures old(currentCol) + amount >= 0 ==> currentCol == old(currentCol) + amount
      ensures currentRow == old(currentRow) && cursor == old(cursor)
      ensures columnWidths == old(columnWidths) && rowHeights == old(rowHeights)
    {
      var newAmount := currentCol + amount;
      if newAmount < 0 {
        newAmount := 0;
      }
      currentCol := newAmount;
    }

    /**
     * `process_char` without the redraw: the key's action, one field
     * clamped at 0, every other field unchanged; a key outside the map
     * changes nothing.  The view's positions stay non-negative.
     */
    method ProcessChar(ch: int)
      modifies this
      ensures match KeyAction(ch)
        case VScroll(k) => currentRow == Clamp(old(currentRow) + k) && currentCol == old(currentCol) && cursor == old(cursor)
        case HScroll(k) => currentCol == Clamp(old(currentCol) + k) && currentRow == old(currentRow) && cursor == old(cursor)
        case Move(dr, dc) =>
          cursor == (Clamp(old(cursor).0 + dr), Clamp(old(cursor).1 + dc)) &&
          currentRow == old(currentRow) && currentCol == old(currentCol)
        case Ignore => currentRow == old(currentRow) && currentCol == old(currentCol) && cursor == old(cursor)
      ensures old(NonNegative()) ==> NonNegative()
      ensures columnWidths == old(columnWidths) && rowHeights == old(rowHeights)
    {
      if ch == 10 {
        VerticalScroll(1);
      }
      if ch == 11 {
        VerticalScroll(-1);
      }
      if ch == 12 {
        HorizontalScroll(1);
      }
      if ch == 263 {
        HorizontalScroll(-1);
      }
      if ch == 'j' as int {
        MoveCursor(1, 0);
      }
      if ch == 'k' as int {
        MoveCursor(-1, 0);
      }
      if ch == 'l' as int {
        MoveCursor(0, 1);
      }
      if ch == 'h' as int {
        MoveCursor(0, -1);
      }
    }

    /* -------------------------------------------------------------------- */
    /* `get_column_offset`                                                   */
    /* -------------------------------------------------------------------- */

    /**
     * `get_column_offset` as written: after `k` passes of its loop, `col`
     * is still `current_col` and `offset` has grown by that column's width
     * each time.  The loop never changes `col`.
     */
    function OffsetLoopAsWritten(k: nat): (st: (int, int))
      reads this
      decreases k
    {
      if k == 0 then (currentCol, 0)
      else
        var (col, offset) := OffsetLoopAsWritten(k - 1);
        (col, offset + GetColumnWidth(col))
    }

    /** For any column other than `current_col`, the loop's test holds after every number of passes: it never ends. */
    lemma {:induction false} OffsetLoopNeverEnds(column: int, k: nat)
      requires column != currentCol
      ensures OffsetLoopAsWritten(k).0 != column
      ensures OffsetLoopAsWritten(k) == (currentCol, k * GetColumnWidth(currentCol))
      decreases k
    {
      if k > 0 {
        OffsetLoopNeverEnds(column, k - 1);
      }
    }

    /** The widths of columns `lo` .. `hi - 1`. */
    function WidthSum(lo: int, hi: int): int
      reads this
      decreases hi - lo
    {
      if hi <= lo then 0 else WidthSum(lo, hi - 1) + GetColumnWidth(hi - 1)
    }

    /**
     * `get_column_offset` with the column advanced on each pass, as its use
     * in `draw_column` requires: the widths of the columns from
     * `current_col` up to `column`.  The correction adds only what the loop
     * adds, the widths; `draw_page` also steps over the `|` that
     * `draw_cell_inner` appends to each cell (width + 1 per column).
     */
    method ColumnOffset(column: int) returns (offset: int)
      requires currentCol <= column
      ensures offset == WidthSum(currentCol, column)
    {
      offset := 0;
      var col := currentCol;
      while col != column
        invariant currentCol <= col <= column
        invariant offset == WidthSum(currentCol, col)
        decreases column - col
      {
        offset := offset + GetColumnWidth(col);
        col := col + 1;
      }
    }

    /** Offsets add up: the offset of `c` is the offset of `b` plus the widths from `b` to `c`. */
    lemma {:induction false} WidthSumSplit(a: int, b: int, c: int)
      requires a <= b <= c
      ensures WidthSum(a, c) == WidthSum(a, b) + WidthSum(b, c)
      decreases c - b
    {
      if b < c {
        WidthSumSplit(a, b, c - 1);
      }
    }

    /** Without overrides every column is 8 wide, so the offset of `column` is 8 per column from `current_col`. */
    lemma {:induction false} DefaultOffset(lo: int, hi: int)
      requires columnWidths == map[] && lo <= hi
      ensures WidthSum(lo, hi) == DefaultColWidth * (hi - lo)
      decreases hi - lo
    {
      if lo < hi {
        DefaultOffset(lo, hi - 1);
      }
    }

    /** With positive widths, a column further right starts strictly further right. */
    lemma {:induction false} OffsetIncreasing(a: int, b: int, c: int)
      requires a <= b < c
      requires forall k :: k in columnWidths ==> columnWidths[k] > 0
      ensures WidthSum(a, b) < WidthSum(a, c)
      decreases c - b
    {
      if b < c - 1 {
        OffsetIncreasing(a, b, c - 1);
      }
    }
  }
}
