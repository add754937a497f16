/**
 * source/view/window.py: a window owns a fixed `height` x `width` buffer of
 * cells `(value, modifier)` and a log `changed` of the positions written
 * since the last refresh.  `update_value` writes a cell only when the
 * position lies inside the buffer and then logs it; `draw_text` and
 * `draw_box` are sequences of `update_value` calls.  A window sits at
 * `(row, col)` inside its parent, and `get_scr_indices` adds up these
 * offsets along the parent chain.
 *
 * Each drawing operation is specified by the list of writes it makes, in
 * order (`Write`): `Paint` applies them to the buffer and `Logged` says
 * what the log gains; `Overlay` says what one cell shows afterwards, and
 * the lemmas below give the content of every cell in closed form.
 */
module Windows {
  import opened Common

  /** A buffer cell: the text shown and its display modifier. */
  type Cell = (string, int)

  /** One call of `update_value`: a position, the text and the modifier. */
  datatype Write = Write(row: nat, col: nat, value: string, modifier: int)

  /* ---------------------------------------------------------------------- */
  /* Lists of writes                                                         */
  /* ---------------------------------------------------------------------- */

  /** The last of `ws` that writes at (r, c), if any. */
  function LastWrite(ws: seq<Write>, r: int, c: int): Option<Cell>
  {
    if ws == [] then None
    else
      var w := ws[|ws| - 1];
      if w.row == r && w.col == c then Some((w.value, w.modifier)) else LastWrite(ws[..|ws| - 1], r, c)
  }

  /** What (r, c) shows after the writes `ws`, when it showed `x` before: the last write there wins. */
  function Overlay(x: Cell, ws: seq<Write>, r: int, c: int): Cell
  {
    match LastWrite(ws, r, c)
    case Some(v) => v
    case None => x
  }

  /** Whether (r, c) lies inside `g`, as `update_value` tests it: below the number of rows and that row's length. */
  predicate InGrid(g: seq<seq<Cell>>, r: int, c: int)
  {
    0 <= r < |g| && 0 <= c < |g[r]|
  }

  /** One `update_value` on the buffer `g`: the cell is replaced when it lies inside. */
  function Put(g: seq<seq<Cell>>, w: Write): seq<seq<Cell>>
  {
    if InGrid(g, w.row, w.col) then g[w.row := g[w.row][w.col := (w.value, w.modifier)]] else g
  }

  /** The buffer after the writes `ws`, in order. */
  function Paint(g: seq<seq<Cell>>, ws: seq<Write>): seq<seq<Cell>>
  {
    if ws == [] then g else Put(Paint(g, ws[..|ws| - 1]), ws[|ws| - 1])
  }

  /** What `update_value` logs for `ws` on a buffer shaped like `g`: the positions inside it, in order. */
  function Logged(g: seq<seq<Cell>>, ws: seq<Write>): seq<(int, int)>
  {
    if ws == [] then []
    else
      var last := ws[|ws| - 1];
      Logged(g, ws[..|ws| - 1]) + (if InGrid(g, last.row, last.col) then [(last.row, last.col)] else [])
  }

  /** One more write changes only its own position. */
  lemma OverlaySnoc(ws: seq<Write>, w: Write)
    ensures forall x, r, c :: Overlay(x, ws + [w], r, c) == if w.row == r && w.col == c then (w.value, w.modifier) else Overlay(x, ws, r, c)
  {
    assert (ws + [w])[..|ws|] == ws;
  }

  /** Lists of writes concatenate associatively. */
  lemma Assoc(a: seq<Write>, b: seq<Write>, c: seq<Write>)
    ensures (a + b) + c == a + (b + c)
  {
  }

  /** One more `update_value` paints and logs on top of the earlier ones. */
  lemma PaintSnoc(g: seq<seq<Cell>>, ws: seq<Write>, w: Write)
    ensures Paint(g, ws + [w]) == Put(Paint(g, ws), w)
    ensures Logged(g, ws + [w]) == Logged(g, ws) + (if InGrid(g, w.row, w.col) then [(w.row, w.col)] else [])
  {
    assert (ws + [w])[..|ws|] == ws;
  }

  /** Painting keeps the buffer's shape, and each cell inside shows its last write, or what it showed before. */
  lemma {:induction false} PaintCell(g: seq<seq<Cell>>, ws: seq<Write>, r: nat, c: nat)
    ensures |Paint(g, ws)| == |g|
    ensures forall i :: 0 <= i < |g| ==> |Paint(g, ws)[i]| == |g[i]|
    ensures InGrid(g, r, c) ==> Paint(g, ws)[r][c] == Overlay(g[r][c], ws, r, c)
    decreases |ws|
  {
    if ws != [] {
      PaintCell(g, ws[..|ws| - 1], r, c);
    }
  }

  /** `update_value` on the buffer: its own position shows the new cell when inside, every other cell is unchanged. */
  lemma PutCell(g: seq<seq<Cell>>, w: Write, r: int, c: int)
    ensures |Put(g, w)| == |g| && forall i :: 0 <= i < |g| ==> |Put(g, w)[i]| == |g[i]|
    ensures InGrid(g, r, c) ==> Put(g, w)[r][c] == if r == w.row && c == w.col then (w.value, w.modifier) else g[r][c]
    ensures !InGrid(g, w.row, w.col) ==> Put(g, w) == g
  {
  }

  /** Writes made one list after another: the later list writes over the earlier one. */
  lemma {:induction false} OverlayAppend(x: Cell, a: seq<Write>, b: seq<Write>, r: int, c: int)
    ensures Overlay(x, a + b, r, c) == Overlay(Overlay(x, a, r, c), b, r, c)
    decreases |b|
  {
    if b == [] {
      assert a + b == a;
    } else {
      var n := |b| - 1;
      assert a + b == (a + b[..n]) + [b[n]];
      assert b == b[..n] + [b[n]];
      OverlaySnoc(a + b[..n], b[n]);
      OverlaySnoc(b[..n], b[n]);
      OverlayAppend(x, a, b[..n], r, c);
    }
  }

  /** A write outside the buffer is never logged, so the log is at most as long as the writes. */
  lemma {:induction false} LoggedInside(g: seq<seq<Cell>>, ws: seq<Write>)
    ensures |Logged(g, ws)| <= |ws|
    ensures forall i :: 0 <= i < |Logged(g, ws)| ==> InGrid(g, Logged(g, ws)[i].0, Logged(g, ws)[i].1)
    decreases |ws|
  {
    if ws != [] {
      LoggedInside(g, ws[..|ws| - 1]);
    }
  }

  /* ---------------------------------------------------------------------- */
  /* `draw_text`                                                             */
  /* ---------------------------------------------------------------------- */

  /** `draw_text`'s writes: character `i` of `text` at (row, col + i), left to right. */
  function TextWrites(text: string, row: nat, col: nat, m: int): seq<Write>
    decreases |text|
  {
    if text == [] then []
    else TextWrites(text[..|text| - 1], row, col, m) + [Write(row, col + |text| - 1, [text[|text| - 1]], m)]
  }

  /** One more pass of `draw_text`'s loop writes the next character. */
  lemma TextWritesSnoc(text: string, i: nat, row: nat, col: nat, m: int)
    requires i < |text|
    ensures TextWrites(text[..i + 1], row, col, m) == TextWrites(text[..i], row, col, m) + [Write(row, col + i, [text[i]], m)]
  {
    assert text[..i + 1][..i] == text[..i];
  }

  /** After `draw_text`, the cells of the text's row from `col` on show its characters, and nothing else changes. */
  lemma {:induction false} TextCell(x: Cell, text: string, row: nat, col: nat, m: int, r: int, c: int)
    ensures Overlay(x, TextWrites(text, row, col, m), r, c) ==
      if r == row && col <= c < col + |text| then ([text[c - col]], m) else x
    decreases |text|
  {
    if text != [] {
      var n := |text| - 1;
      OverlaySnoc(TextWrites(text[..n], row, col, m), Write(row, col + n, [text[n]], m));
      TextCell(x, text[..n], row, col, m, r, c);
    }
  }

  /** The buffer after `draw_text`: the text's characters inside the buffer, every other cell unchanged. */
  lemma TextPainted(g: seq<seq<Cell>>, text: string, row: nat, col: nat, m: int, r: int, c: int)
    ensures |Paint(g, TextWrites(text, row, col, m))| == |g|
    ensures forall i :: 0 <= i < |g| ==> |Paint(g, TextWrites(text, row, col, m))[i]| == |g[i]|
    ensures InGrid(g, r, c) ==>
      Paint(g, TextWrites(text, row, col, m))[r][c] == (if r == row && col <= c < col + |text| then ([text[c - col]], m) else g[r][c])
  {
    if InGrid(g, r, c) {
      PaintCell(g, TextWrites(text, row, col, m), r, c);
      TextCell(g[r][c], text, row, col, m, r, c);
    } else {
      PaintCell(g, TextWrites(text, row, col, m), 0, 0);
    }
  }

  /* ---------------------------------------------------------------------- */
  /* `draw_box`                                                              */
  /* ---------------------------------------------------------------------- */

  /** The strings `draw_box` draws with; `fill` empty means no filling. */
  datatype BoxStyle = BoxStyle(topline: string, bottomline: string, rightline: string, leftline: string,
                               tl: string, tr: string, bl: string, br: string, fill: string)

  /** `draw_box`'s default arguments. */
  const DefaultBox := BoxStyle("-", "-", "|", "|", "+", "+", "+", "+", "")

  /** The preconditions under which every position `draw_box` writes is non-negative. */
  predicate BoxInside(col: int, row: int, height: int, width: int)
  {
    0 <= col && 0 <= row && 1 <= row + height && 1 <= col + width
  }

  /** The first loop, up to `k`: for i in 1 .. k - 1, the top edge at (row, col + i), then the bottom edge. */
  function EdgeWrites(col: int, row: int, height: int, k: int, s: BoxStyle, m: int): seq<Write>
    requires BoxInside(col, row, height, 1)
    decreases k
  {
    if k <= 1 then []
    else EdgeWrites(col, row, height, k - 1, s, m) +
         [Write(row, col + k - 1, s.topline, m), Write(row + height - 1, col + k - 1, s.bottomline, m)]
  }

  /** The second loop, up to `k`: for i in 1 .. k - 1, the left edge at (row + i, col), then the right edge. */
  function SideWrites(col: int, row: int, width: int, k: int, s: BoxStyle, m: int): seq<Write>
    requires BoxInside(col, row, 1, width)
    decreases k
  {
    if k <= 1 then []
    else SideWrites(col, row, width, k - 1, s, m) +
         [Write(row + k - 1, col, s.leftline, m), Write(row + k - 1, col + width - 1, s.rightline, m)]
  }

  /** The four corners, in the order the source writes them. */
  function CornerWrites(col: int, row: int, height: int, width: int, s: BoxStyle, m: int): seq<Write>
    requires BoxInside(col, row, height, width)
  {
    [Write(row, col, s.tl, m), Write(row, col + width - 1, s.tr, m),
     Write(row + height - 1, col, s.bl, m), Write(row + height - 1, col + width - 1, s.br, m)]
  }

  /** The inner fill loop on row `r`, up to column `cEnd`: `fill` at (r, c) for c in col + 1 .. cEnd - 1. */
  function FillRow(r: nat, col: nat, cEnd: int, fill: string, m: int): seq<Write>
    decreases cEnd
  {
    if cEnd <= col + 1 then []
    else FillRow(r, col, cEnd - 1, fill, m) + [Write(r, cEnd - 1, fill, m)]
  }

  /** The outer fill loop up to row `rEnd`: the inner loop on each row from row + 1 to rEnd - 1. */
  function FillRows(col: nat, row: nat, width: int, rEnd: int, fill: string, m: int): seq<Write>
    decreases rEnd
  {
    if rEnd <= row + 1 then []
    else FillRows(col, row, width, rEnd - 1, fill, m) + FillRow(rEnd - 1, col, col + width - 1, fill, m)
  }

  /** Everything `draw_box` writes, in order: edges, sides, corners, then the fill when there is one. */
  function BoxWrites(col: int, row: int, height: int, width: int, s: BoxStyle, m: int): seq<Write>
    requires BoxInside(col, row, height, width)
  {
    EdgeWrites(col, row, height, width - 1, s, m) + SideWrites(col, row, width, height - 1, s, m) +
    CornerWrites(col, row, height, width, s, m) +
    (if s.fill != "" then FillRows(col, row, width, row + height - 1, s.fill, m) else [])
  }

  /**
   * What (r, c) shows after `draw_box`: the fill strictly inside, when
   * there is a fill; otherwise the corner written last there, the side or
   * edge through it, or what it showed before.
   */
  function BoxCellValue(x: Cell, col: int, row: int, height: int, width: int, s: BoxStyle, m: int, r: int, c: int): Cell
  {
    var bottom, right := row + height - 1, col + width - 1;
    if s.fill != "" && row < r < bottom && col < c < right then (s.fill, m)
    else if r == bottom && c == right then (s.br, m)
    else if r == bottom && c == col then (s.bl, m)
    else if r == row && c == right then (s.tr, m)
    else if r == row && c == col then (s.tl, m)
    else if row < r < bottom && c == right then (s.rightline, m)
    else if row < r < bottom && c == col then (s.leftline, m)
    else if col < c < right && r == bottom then (s.bottomline, m)
    else if col < c < right && r == row then (s.topline, m)
    else x
  }

  lemma {:induction false} EdgeCell(x: Cell, col: int, row: int, height: int, k: int, s: BoxStyle, m: int, r: int, c: int)
    requires BoxInside(col, row, height, 1)
    ensures Overlay(x, EdgeWrites(col, row, height, k, s, m), r, c) ==
      if col < c < col + k && r == row + height - 1 then (s.bottomline, m)
      else if col < c < col + k && r == row then (s.topline, m)
      else x
    decreases k
  {
    if k > 1 {
      var prev := EdgeWrites(col, row, height, k - 1, s, m);
      var w1, w2 := Write(row, col + k - 1, s.topline, m), Write(row + height - 1, col + k - 1, s.bottomline, m);
      assert EdgeWrites(col, row, height, k, s, m) == (prev + [w1]) + [w2];
      OverlaySnoc(prev, w1);
      OverlaySnoc(prev + [w1], w2);
      EdgeCell(x, col, row, height, k - 1, s, m, r, c);
    }
  }

  lemma {:induction false} SideCell(x: Cell, col: int, row: int, width: int, k: int, s: BoxStyle, m: int, r: int, c: int)
    requires BoxInside(col, row, 1, width)
    ensures Overlay(x, SideWrites(col, row, width, k, s, m), r, c) ==
      if row < r < row + k && c == col + width - 1 then (s.rightline, m)
      else if row < r < row + k && c == col then (s.leftline, m)
      else x
    decreases k
  {
    if k > 1 {
      var prev := SideWrites(col, row, width, k - 1, s, m);
      var w1, w2 := Write(row + k - 1, col, s.leftline, m), Write(row + k - 1, col + width - 1, s.rightline, m);
      assert SideWrites(col, row, width, k, s, m) == (prev + [w1]) + [w2];
      OverlaySnoc(prev, w1);
      OverlaySnoc(prev + [w1], w2);
      SideCell(x, col, row, width, k - 1, s, m, r, c);
    }
  }

  lemma CornerCell(x: Cell, col: int, row: int, height: int, width: int, s: BoxStyle, m: int, r: int, c: int)
    requires BoxInside(col, row, height, width)
    ensures Overlay(x, CornerWrites(col, row, height, width, s, m), r, c) ==
      if r == row + height - 1 && c == col + width - 1 then (s.br, m)
      else if r == row + height - 1 && c == col then (s.bl, m)
      else if r == row && c == col + width - 1 then (s.tr, m)
      else if r == row && c == col then (s.tl, m)
      else x
  {
    var w := CornerWrites(col, row, height, width, s, m);
    var w1, w2, w3 := w[..1], w[..2], w[..3];
    assert w1 == [] + [w[0]] && w2 == w1 + [w[1]] && w3 == w2 + [w[2]] && w == w3 + [w[3]];
    OverlaySnoc([], w[0]);
    OverlaySnoc(w1, w[1]);
    OverlaySnoc(w2, w[2]);
    OverlaySnoc(w3, w[3]);
  }

  lemma {:induction false} FillRowCell(x: Cell, r0: nat, col: nat, cEnd: int, fill: string, m: int, r: int, c: int)
    ensures Overlay(x, FillRow(r0, col, cEnd, fill, m), r, c) ==
      if r == r0 && col < c < cEnd then (fill, m) else x
    decreases cEnd
  {
    if cEnd > col + 1 {
      OverlaySnoc(FillRow(r0, col, cEnd - 1, fill, m), Write(r0, cEnd - 1, fill, m));
      FillRowCell(x, r0, col, cEnd - 1, fill, m, r, c);
    }
  }

  lemma {:induction false} FillRowsCell(x: Cell, col: nat, row: nat, width: int, rEnd: int, fill: string, m: int, r: int, c: int)
    ensures Overlay(x, FillRows(col, row, width, rEnd, fill, m), r, c) ==
      if row < r < rEnd && col < c < col + width - 1 then (fill, m) else x
    decreases rEnd
  {
    if rEnd > row + 1 {
      var prev := FillRows(col, row, width, rEnd - 1, fill, m);
      OverlayAppend(x, prev, FillRow(rEnd - 1, col, col + width - 1, fill, m), r, c);
      FillRowsCell(x, col, row, width, rEnd - 1, fill, m, r, c);
      FillRowCell(Overlay(x, prev, r, c), rEnd - 1, col, col + width - 1, fill, m, r, c);
    }
  }

  /** One more pass of the outer fill loop appends that row's writes. */
  lemma FillRowsSnoc(before: seq<Write>, col: nat, row: nat, width: int, r: nat, fill: string, m: int)
    requires row + 1 <= r
    ensures before + FillRows(col, row, width, r + 1, fill, m) == (before + FillRows(col, row, width, r, fill, m)) + FillRow(r, col, col + width - 1, fill, m)
  {
    Assoc(before, FillRows(col, row, width, r, fill, m), FillRow(r, col, col + width - 1, fill, m));
  }

  /** `draw_box` in closed form: what every cell shows afterwards. */
  lemma BoxCell(x: Cell, col: int, row: int, height: int, width: int, s: BoxStyle, m: int, r: int, c: int)
    requires BoxInside(col, row, height, width)
    ensures Overlay(x, BoxWrites(col, row, height, width, s, m), r, c) == BoxCellValue(x, col, row, height, width, s, m, r, c)
  {
    var e := EdgeWrites(col, row, height, width - 1, s, m);
    var d := SideWrites(col, row, width, height - 1, s, m);
    var k := CornerWrites(col, row, height, width, s, m);
    var f := if s.fill != "" then FillRows(col, row, width, row + height - 1, s.fill, m) else [];
    OverlayAppend(x, e + d + k, f, r, c);
    OverlayAppend(x, e + d, k, r, c);
    OverlayAppend(x, e, d, r, c);
    EdgeCell(x, col, row, height, width - 1, s, m, r, c);
    var x1 := Overlay(x, e, r, c);
    SideCell(x1, col, row, width, height - 1, s, m, r, c);
    var x2 := Overlay(x1, d, r, c);
    CornerCell(x2, col, row, height, width, s, m, r, c);
    var x3 := Overlay(x2, k, r, c);
    if s.fill != "" {
      FillRowsCell(x3, col, row, width, row + height - 1, s.fill, m, r, c);
    }
  }

  /** The buffer after `draw_box`: each cell inside shows its closed form, and the shape is kept. */
  lemma BoxPainted(g: seq<seq<Cell>>, col: int, row: int, height: int, width: int, s: BoxStyle, m: int, r: int, c: int)
    requires BoxInside(col, row, height, width)
    ensures |Paint(g, BoxWrites(col, row, height, width, s, m))| == |g|
    ensures forall i :: 0 <= i < |g| ==> |Paint(g, BoxWrites(col, row, height, width, s, m))[i]| == |g[i]|
    ensures InGrid(g, r, c) ==>
      Paint(g, BoxWrites(col, row, height, width, s, m))[r][c] == BoxCellValue(g[r][c], col, row, height, width, s, m, r, c)
  {
    if InGrid(g, r, c) {
      PaintCell(g, BoxWrites(col, row, height, width, s, m), r, c);
      BoxCell(g[r][c], col, row, height, width, s, m, r, c);
    } else {
      PaintCell(g, BoxWrites(col, row, height, width, s, m), 0, 0);
    }
  }

  /* ---------------------------------------------------------------------- */
  /* Row-major order and screen rectangles                                   */
  /* ---------------------------------------------------------------------- */

  /** The positions (r, 0) .. (r, n - 1). */
  function RowCoords(r: int, n: int): seq<(int, int)>
    decreases n
  {
    if n <= 0 then [] else RowCoords(r, n - 1) + [(r, n - 1)]
  }

  /** `for r in range(h): for c in range(w)`: every position of an `h` x `w` buffer, row by row. */
  function RowMajor(h: int, w: int): seq<(int, int)>
    decreases h
  {
    if h <= 0 then [] else RowMajor(h - 1, w) + RowCoords(h - 1, w)
  }

  lemma {:induction false} RowCoordsAt(r: int, n: int)
    ensures |RowCoords(r, n)| == Clamp(n)
    ensures forall c :: 0 <= c < Clamp(n) ==> RowCoords(r, n)[c] == (r, c)
    decreases n
  {
    if n > 0 {
      RowCoordsAt(r, n - 1);
    }
  }

  /** Division by a positive number has a unique quotient and remainder. */
  lemma DivModUnique(i: int, w: int, q: int, c: int)
    requires w > 0 && 0 <= c < w && i == q * w + c
    ensures i / w == q && i % w == c
  {
    var d := i / w - q;
    assert d * w == c - i % w;
  }

  /** Row-major order: position `i` of the list is (i / w, i % w), so each position comes exactly once. */
  lemma {:induction false} RowMajorAt(h: nat, w: nat)
    ensures |RowMajor(h, w)| == h * w
    ensures forall i :: 0 <= i < h * w ==> RowMajor(h, w)[i] == (i / w, i % w)
    decreases h
  {
    if h > 0 {
      RowMajorAt(h - 1, w);
      RowCoordsAt(h - 1, w);
      var prev := RowMajor(h - 1, w);
      assert |prev| == (h - 1) * w;
      assert h * w == (h - 1) * w + w;
      forall i | (h - 1) * w <= i < h * w
        ensures RowMajor(h, w)[i] == (i / w, i % w)
      {
        var c := i - (h - 1) * w;
        DivModUnique(i, w, h - 1, c);
      }
    }
  }

  /** The screen positions `rows` x `cols` from (r0, c0). */
  function Rect(r0: int, c0: int, rows: int, cols: int): set<(int, int)>
  {
    set r, c | r0 <= r < r0 + rows && c0 <= c < c0 + cols :: (r, c)
  }

  /** Python's `seq[i]`: a position counted from the end when negative, nothing outside. */
  function PyIndex(i: int, n: nat): (k: Option<nat>)
    ensures k.Some? <==> -(n as int) <= i < n
    ensures k.Some? ==> k.value < n && (k.value - i == 0 || k.value - i == n)
  {
    if 0 <= i < n then Some(i) else if -(n as int) <= i < 0 then Some(n + i) else None
  }

  /* ---------------------------------------------------------------------- */
  /* The window                                                              */
  /* ---------------------------------------------------------------------- */

  /** The sum of the row offsets of a chain of windows. */
  function SumRows(ws: seq<Window>): int
  {
    if ws == [] then 0 else ws[0].row + SumRows(ws[1..])
  }

  /** The sum of the column offsets of a chain of windows. */
  function SumCols(ws: seq<Window>): int
  {
    if ws == [] then 0 else ws[0].col + SumCols(ws[1..])
  }

  class Window {
    /** The enclosing window, or `None` for the screen's top window. */
    const parent: Option<Window>
    /** Position of the top left corner inside the parent. */
    const col: int
    const row: int
    const height: int
    const width: int
    /** `self.data`: the cell buffer, a list of rows. */
    var data: seq<seq<Cell>>
    /** `self.changed`: positions written since the last refresh, in order. */
    var changed: seq<(int, int)>
    var children: seq<Window>
    var toDelete: bool
    /** How many windows lie above this one; it makes the parent chain finite. */
    ghost const depth: nat

    /** The parent chain ends: every parent lies strictly higher. */
    ghost predicate Rooted()
      decreases depth
    {
      parent.Some? ==> parent.value.depth < depth && parent.value.Rooted()
    }

    /** `__init__`: `height` rows of `width` cells `(defaultchar, defaultattr)`, every position logged, no children. */
    constructor (col: int, row: int, height: int, width: int, parent: Option<Window>, defaultChar: string, defaultAttr: int)
      requires parent.Some? ==> parent.value.Rooted()
      ensures Rooted()
      ensures this.col == col && this.row == row && this.height == height && this.width == width && this.parent == parent
      ensures |data| == Clamp(height)
      ensures forall r :: 0 <= r < |data| ==> |data[r]| == Clamp(width)
      ensures forall r, c :: 0 <= r < |data| && 0 <= c < |data[r]| ==> data[r][c] == (defaultChar, defaultAttr)
      ensures changed == RowMajor(height, width)
      ensures children == [] && !toDelete
    {
      this.parent := parent;
      this.col := col;
      this.row := row;
      this.height := height;
      this.width := width;
      depth := if parent.Some? then parent.value.depth + 1 else 0;
      data := seq(Clamp(height), r => seq(Clamp(width), c => (defaultChar, defaultAttr)));
      changed := [];
      children := [];
      new;
      SetAllChanged();
      toDelete := false;
    }

    /** `delete`: mark the window for removal at the next refresh. */
    method Delete()
      modifies this
      ensures toDelete
      ensures data == old(data) && changed == old(changed) && children == old(children)
    {
      toDelete := true;
    }

    /** `set_changed`: log one position. */
    method SetChanged(row: int, col: int)
      modifies this
      ensures changed == old(changed) + [(row, col)]
      ensures data == old(data) && children == old(children) && toDelete == old(toDelete)
    {
      changed := changed + [(row, col)];
    }

    /** `get_value`: the cell at (row, col), with Python's indexing; outside the buffer it raises. */
    function GetValue(row: int, col: int): (r: Result<Cell, string>)
      reads this
      ensures 0 <= row < |data| && 0 <= col < |data[row]| ==> r == Ok(data[row][col])
      ensures -|data| <= row < 0 && 0 <= col < |data[|data| + row]| ==> r == Ok(data[|data| + row][col])
      ensures (row < -|data| || |data| <= row) ==> r.Err?
      ensures r.Ok? ==> exists i :: 0 <= i < |data| && r.value in data[i]
    {
      match PyIndex(row, |data|)
      case None => Err("IndexError: list index out of range")
      case Some(i) =>
        match PyIndex(col, |data[i]|)
        case None => Err("IndexError: list index out of range")
        case Some(j) => Ok(data[i][j])
    }

    /** `update_value`: inside the buffer, write the cell and log its position; outside, do nothing. */
    method UpdateValue(row: nat, col: nat, value: string, modifier: int)
      modifies this
      ensures data == Put(old(data), Write(row, col, value, modifier))
      ensures changed == old(changed) + (if InGrid(old(data), row, col) then [(row, col)] else [])
      ensures InGrid(old(data), row, col) ==> GetValue(row, col) == Ok((value, modifier))
      ensures children == old(children) && toDelete == old(toDelete)
    {
      if row < |data| {
        if col < |data[row]| {
          data := data[row := data[row][col := (value, modifier)]];
          SetChanged(row, col);
        }
      }
    }

    /** `draw_text`: character `i` of `text` at (row, col + i). */
    method DrawText(text: string, row: nat, col: nat, mod: int)
      modifies this
      ensures Shows(old(data), old(changed), TextWrites(text, row, col, mod))
      ensures children == old(children) && toDelete == old(toDelete)
    {
      ghost var g, log := data, changed;
      ghost var ws: seq<Write> := [];
      for i := 0 to |text|
        invariant ws == TextWrites(text[..i], row, col, mod) && Shows(g, log, ws)
        invariant children == old(children) && toDelete == old(toDelete)
      {
        TextWritesSnoc(text, i, row, col, mod);
        ws := Step(g, log, ws, Write(row, col + i, [text[i]], mod));
      }
      assert text[..|text|] == text;
    }

    /** The buffer is `g` painted with `ws`, and the log is `log` followed by the positions of `ws` inside `g`. */
    ghost predicate Shows(g: seq<seq<Cell>>, log: seq<(int, int)>, ws: seq<Write>)
      reads this
    {
      data == Paint(g, ws) && changed == log + Logged(g, ws)
    }

    /** `draw_box`: the edges, the sides, the corners, then the fill when there is one. */
    method DrawBox(col: int, row: int, height: int, width: int, s: BoxStyle, modifier: int)
      requires BoxInside(col, row, height, width)
      modifies this
      ensures Shows(old(data), old(changed), BoxWrites(col, row, height, width, s, modifier))
      ensures children == old(children) && toDelete == old(toDelete)
    {
      ghost var g, log := data, changed;
      ghost var ws := DrawEdges(g, log, col, row, height, width, s, modifier);
      ws := DrawSides(g, log, ws, col, row, height, width, s, modifier);
      ws := DrawCorners(g, log, ws, col, row, height, width, s, modifier);
      ghost var outline := ws;
      if s.fill != "" {
        ws := DrawFill(g, log, ws, col, row, height, width, s.fill, modifier);
      } else {
        assert ws == outline + [];
      }
      assert ws == BoxWrites(col, row, height, width, s, modifier);
    }

    /** The four corners of `draw_box`. */
    method DrawCorners(ghost g: seq<seq<Cell>>, ghost log: seq<(int, int)>, ghost sides: seq<Write>,
                       col: int, row: int, height: int, width: int, s: BoxStyle, modifier: int)
      returns (ghost ws: seq<Write>)
      requires BoxInside(col, row, height, width) && Shows(g, log, sides)
      modifies this
      ensures ws == sides + CornerWrites(col, row, height, width, s, modifier) && Shows(g, log, ws)
      ensures children == old(children) && toDelete == old(toDelete)
    {
      ws := Step(g, log, sides, Write(row, col, s.tl, modifier));
      ws := Step(g, log, ws, Write(row, col + width - 1, s.tr, modifier));
      ws := Step(g, log, ws, Write(row + height - 1, col, s.bl, modifier));
      ws := Step(g, log, ws, Write(row + height - 1, col + width - 1, s.br, modifier));
    }

    /** The first loop of `draw_box`: the top and bottom edges. */
    method DrawEdges(ghost g: seq<seq<Cell>>, ghost log: seq<(int, int)>, col: int, row: int, height: int, width: int, s: BoxStyle, modifier: int)
      returns (ghost ws: seq<Write>)
      requires BoxInside(col, row, height, width) && Shows(g, log, [])
      modifies this
      ensures ws == EdgeWrites(col, row, height, width - 1, s, modifier) && Shows(g, log, ws)
      ensures children == old(children) && toDelete == old(toDelete)
    {
      ws := [];
      var last := if width - 1 > 1 then width - 1 else 1;
      for i := 1 to last
        invariant ws == EdgeWrites(col, row, height, i, s, modifier) && Shows(g, log, ws)
        invariant children == old(children) && toDelete == old(toDelete)
      {
        ws := Step(g, log, ws, Write(row, col + i, s.topline, modifier));
        ws := Step(g, log, ws, Write(row + height - 1, col + i, s.bottomline, modifier));
      }
      assert EdgeWrites(col, row, height, last, s, modifier) == EdgeWrites(col, row, height, width - 1, s, modifier);
    }

    /** The second loop of `draw_box`: the left and right sides. */
    method DrawSides(ghost g: seq<seq<Cell>>, ghost log: seq<(int, int)>, ghost edges: seq<Write>,
                     col: int, row: int, height: int, width: int, s: BoxStyle, modifier: int)
      returns (ghost ws: seq<Write>)
      requires BoxInside(col, row, height, width) && Shows(g, log, edges)
      modifies this
      ensures ws == edges + SideWrites(col, row, width, height - 1, s, modifier) && Shows(g, log, ws)
      ensures children == old(children) && toDelete == old(toDelete)
    {
      ws := edges;
      var last := if height - 1 > 1 then height - 1 else 1;
      for i := 1 to last
        invariant ws == edges + SideWrites(col, row, width, i, s, modifier) && Shows(g, log, ws)
        invariant children == old(children) && toDelete == old(toDelete)
      {
        ws := DrawSideRow(g, log, edges, ws, i, col, row, width, s, modifier);
      }
      assert SideWrites(col, row, width, last, s, modifier) == SideWrites(col, row, width, height - 1, s, modifier);
    }

    /** One pass of the side loop: the left then the right side on row `row + i`. */
    method DrawSideRow(ghost g: seq<seq<Cell>>, ghost log: seq<(int, int)>, ghost edges: seq<Write>, ghost done: seq<Write>,
                       i: int, col: int, row: int, width: int, s: BoxStyle, modifier: int)
      returns (ghost ws: seq<Write>)
      requires BoxInside(col, row, 1, width) && 1 <= i
      requires done == edges + SideWrites(col, row, width, i, s, modifier) && Shows(g, log, done)
      modifies this
      ensures ws == edges + SideWrites(col, row, width, i + 1, s, modifier) && Shows(g, log, ws)
      ensures children == old(children) && toDelete == old(toDelete)
    {
      var left, right := Write(row + i, col, s.leftline, modifier), Write(row + i, col + width - 1, s.rightline, modifier);
      ws := Step(g, log, done, left);
      ws := Step(g, log, ws, right);
      assert SideWrites(col, row, width, i + 1, s, modifier) == SideWrites(col, row, width, i, s, modifier) + [left, right];
      assert ws == done + [left, right];
    }

    /** The nested fill loops of `draw_box`: `fill` at every position strictly inside. */
    method DrawFill(ghost g: seq<seq<Cell>>, ghost log: seq<(int, int)>, ghost outline: seq<Write>,
                    col: nat, row: nat, height: int, width: int, fill: string, modifier: int)
      returns (ghost ws: seq<Write>)
      requires Shows(g, log, outline)
      modifies this
      ensures ws == outline + FillRows(col, row, width, row + height - 1, fill, modifier) && Shows(g, log, ws)
      ensures children == old(children) && toDelete == old(toDelete)
    {
      ws := outline;
      // `range(row + 1, row + height - 1)`: empty when the end is not above the start
      var last := if row + height - 1 > row + 1 then row + height - 1 else row + 1;
      for r := row + 1 to last
        invariant ws == outline + FillRows(col, row, width, r, fill, modifier) && Shows(g, log, ws)
        invariant children == old(children) && toDelete == old(toDelete)
      {
        ws := DrawFillRow(g, log, outline, ws, r, col, row, width, fill, modifier);
      }
      assert FillRows(col, row, width, last, fill, modifier) == FillRows(col, row, width, row + height - 1, fill, modifier);
    }

    /** One pass of the outer fill loop: the inner loop on row `r`. */
    method DrawFillRow(ghost g: seq<seq<Cell>>, ghost log: seq<(int, int)>, ghost outline: seq<Write>, ghost done: seq<Write>,
                       r: nat, col: nat, row: nat, width: int, fill: string, modifier: int)
      returns (ghost ws: seq<Write>)
      requires row + 1 <= r && done == outline + FillRows(col, row, width, r, fill, modifier) && Shows(g, log, done)
      modifies this
      ensures ws == outline + FillRows(col, row, width, r + 1, fill, modifier) && Shows(g, log, ws)
      ensures children == old(children) && toDelete == old(toDelete)
    {
      ws := done;
      var last := if col + width - 1 > col + 1 then col + width - 1 else col + 1;
      for c := col + 1 to last
        invariant ws == done + FillRow(r, col, c, fill, modifier) && Shows(g, log, ws)
        invariant children == old(children) && toDelete == old(toDelete)
      {
        ws := FillCell(g, log, done, ws, r, c, col, fill, modifier);
      }
      assert FillRow(r, col, last, fill, modifier) == FillRow(r, col, col + width - 1, fill, modifier);
      FillRowsSnoc(outline, col, row, width, r, fill, modifier);
    }

    /** One pass of the inner fill loop: `fill` at (r, c). */
    method FillCell(ghost g: seq<seq<Cell>>, ghost log: seq<(int, int)>, ghost before: seq<Write>, ghost done: seq<Write>,
                    r: nat, c: nat, col: nat, fill: string, modifier: int)
      returns (ghost ws: seq<Write>)
      requires col + 1 <= c && done == before + FillRow(r, col, c, fill, modifier) && Shows(g, log, done)
      modifies this
      ensures ws == before + FillRow(r, col, c + 1, fill, modifier) && Shows(g, log, ws)
      ensures children == old(children) && toDelete == old(toDelete)
    {
      Assoc(before, FillRow(r, col, c, fill, modifier), [Write(r, c, fill, modifier)]);
      ws := Step(g, log, done, Write(r, c, fill, modifier));
    }

    /** One `update_value` inside `draw_text` or `draw_box`, with the write it makes recorded. */
    method Step(ghost g: seq<seq<Cell>>, ghost log: seq<(int, int)>, ghost ws: seq<Write>, w: Write) returns (ghost ws': seq<Write>)
      requires Shows(g, log, ws)
      modifies this
      ensures ws' == ws + [w] && Shows(g, log, ws')
      ensures children == old(children) && toDelete == old(toDelete)
    {
      PaintCell(g, ws, w.row, w.col);
      UpdateValue(w.row, w.col, w.value, w.modifier);
      PaintSnoc(g, ws, w);
      ws' := ws + [w];
    }

    /** `set_all_changed`: log every position of the window, row by row. */
    method SetAllChanged()
      modifies this
      ensures changed == old(changed) + RowMajor(height, width)
      ensures data == old(data) && children == old(children) && toDelete == old(toDelete)
    {
      for r := 0 to Clamp(height)
        invariant changed == old(changed) + RowMajor(r, width)
        invariant data == old(data) && children == old(children) && toDelete == old(toDelete)
      {
        for c := 0 to Clamp(width)
          invariant changed == old(changed) + RowMajor(r, width) + RowCoords(r, c)
          invariant data == old(data) && children == old(children) && toDelete == old(toDelete)
        {
          SetChanged(r, c);
        }
      }
    }

    /** This window and its ancestors, innermost first. */
    ghost function Chain(): (ws: seq<Window>)
      requires Rooted()
      ensures |ws| >= 1 && ws[0] == this && ws[|ws| - 1].parent.None?
      ensures forall i :: 0 <= i < |ws| - 1 ==> ws[i].parent == Some(ws[i + 1])
      decreases depth
    {
      [this] + if parent.Some? then parent.value.Chain() else []
    }

    /** `get_scr_indices`: a position of this window on the screen, its offsets added along the parent chain. */
    function ScrIndices(row: int, col: int): (p: (int, int))
      requires Rooted()
      ensures p == (row + SumRows(Chain()), col + SumCols(Chain()))
      decreases depth
    {
      var outRow := this.row + row;
      var outCol := this.col + col;
      if parent.Some? then
        var origin := parent.value.ScrIndices(0, 0);
        (outRow + origin.0, outCol + origin.1)
      else (outRow, outCol)
    }

    /** The screen positions this window covers. */
    ghost function Covered(): set<(int, int)>
      requires Rooted()
    {
      Rect(ScrIndices(0, 0).0, ScrIndices(0, 0).1, height, width)
    }

    /** `update_parent_indices`: every covered position becomes seen; a position already seen keeps its mark. */
    method UpdateParentIndices(seen: map<(int, int), bool>) returns (out: map<(int, int), bool>)
      requires Rooted()
      ensures out.Keys == seen.Keys + Covered()
      ensures forall k :: k in seen ==> out[k] == seen[k]
      ensures forall k :: k in out && k !in seen ==> out[k]
    {
      var origin := ScrIndices(0, 0);
      out := seen;
      for r := 0 to Clamp(height)
        invariant out.Keys == seen.Keys + Rect(origin.0, origin.1, r, width)
        invariant forall k :: k in seen ==> out[k] == seen[k]
        invariant forall k :: k in out && k !in seen ==> out[k]
      {
        out := MarkRow(out, r);
        assert Rect(origin.0, origin.1, r + 1, width) == Rect(origin.0, origin.1, r, width) + Rect(origin.0 + r, origin.1, 1, width);
      }
      assert Rect(origin.0, origin.1, Clamp(height), width) == Rect(origin.0, origin.1, height, width);
    }

    /** The inner loop of `update_parent_indices`: the positions of row `r` become seen. */
    method MarkRow(seen: map<(int, int), bool>, r: int) returns (out: map<(int, int), bool>)
      requires Rooted()
      ensures out.Keys == seen.Keys + Rect(ScrIndices(0, 0).0 + r, ScrIndices(0, 0).1, 1, width)
      ensures forall k :: k in seen ==> out[k] == seen[k]
      ensures forall k :: k in out && k !in seen ==> out[k]
    {
      var origin := ScrIndices(0, 0);
      out := seen;
      for c := 0 to Clamp(width)
        invariant out.Keys == seen.Keys + Rect(origin.0 + r, origin.1, 1, c)
        invariant forall k :: k in seen ==> out[k] == seen[k]
        invariant forall k :: k in out && k !in seen ==> out[k]
      {
        var ind := ScrIndices(r, c);
        if ind !in out {
          out := out[ind := true];
        }
        assert Rect(origin.0 + r, origin.1, 1, c + 1) == Rect(origin.0 + r, origin.1, 1, c) + {(origin.0 + r, origin.1 + c)};
      }
      assert Rect(origin.0 + r, origin.1, 1, Clamp(width)) == Rect(origin.0 + r, origin.1, 1, width);
    }

    /** `add_child`: append a child window. */
    method AddChild(window: Window)
      modifies this
      ensures children == old(children) + [window]
      ensures data == old(data) && changed == old(changed) && toDelete == old(toDelete)
    {
      children := children + [window];
    }
  }
}
