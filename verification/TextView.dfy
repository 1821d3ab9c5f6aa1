/**
 Where the editor draws each byte, and which byte a point of the window belongs to.
 */
module TextView {
  import opened Bytes
  import opened TextModel

  const VIEW_X := 8
  const VIEW_Y := 30
  const CELL_WIDTH := 6
  const CELL_HEIGHT := 9
  const VIEW_COLUMNS := 110
  const VIEW_ROWS := 40

  /** A tab reaches the next multiple of four. */
  function Width(b: byte, column: nat): (r: nat)
    ensures 1 <= r <= 4
  {
    if b == TAB then 4 - column % 4 else 1
  }

  /** The column at which the byte at `p` begins on the screen, before scrolling. */
  function VisualAt(s: seq<byte>, p: nat): nat
    requires p <= |s|
  {
    if p == 0 || s[p - 1] == NEWLINE then 0
    else VisualAt(s, p - 1) + Width(s[p - 1], VisualAt(s, p - 1))
  }

  /** One character cell of the window that shows (part of) the byte at `offset`. */
  datatype Cell = Cell(offset: nat, column: nat, row: nat)

  ghost predicate Visible(s: seq<byte>, top: nat, left: nat, c: Cell) {
    && c.offset < |s|
    && s[c.offset] != NEWLINE
    && LineOf(s, c.offset) == top + c.row
    && c.row < VIEW_ROWS
    && left <= c.column < left + VIEW_COLUMNS
    && VisualAt(s, c.offset) <= c.column < VisualAt(s, c.offset) + Width(s[c.offset], VisualAt(s, c.offset))
  }

  /** The point lies in the rectangle filled for a selected cell, glyph included. */
  predicate InCell(left: nat, c: Cell, x: int, y: int)
    requires left <= c.column
  {
    var cellX, glyphY := VIEW_X + (c.column - left) * CELL_WIDTH, VIEW_Y + 1 + c.row * CELL_HEIGHT;
    cellX <= x < cellX + CELL_WIDTH && glyphY - 1 <= y < glyphY - 1 + CELL_HEIGHT
  }

  function RowAt(y: int): nat {
    if y < VIEW_Y then 0 else Min((y - VIEW_Y) / CELL_HEIGHT, VIEW_ROWS - 1)
  }

  function ColumnAt(x: int): nat {
    if x < VIEW_X then 0 else Min((x - VIEW_X) / CELL_WIDTH, VIEW_COLUMNS - 1)
  }

  /** The byte of the pointed-at line that covers the pointed-at column, else the line's end;
      below the text, the end of the text. */
  ghost predicate Hit(s: seq<byte>, top: nat, left: nat, x: int, y: int, r: nat) {
    && r <= |s|
    && if top + RowAt(y) > LineOf(s, |s|) then r == |s|
       else
         && LineOf(s, r) == top + RowAt(y)
         && VisualAt(s, r) <= left + ColumnAt(x)
         && (r == |s| || s[r] == NEWLINE || left + ColumnAt(x) < VisualAt(s, r) + Width(s[r], VisualAt(s, r)))
  }

  lemma {:induction false} LineOfMonotone(s: seq<byte>, p: nat, q: nat)
    requires p <= q <= |s|
    ensures LineOf(s, p) <= LineOf(s, q)
    ensures (exists i :: p <= i < q && s[i] == NEWLINE) ==> LineOf(s, p) < LineOf(s, q)
    decreases q - p
  {
    if p < q {
      LineOfMonotone(s, p, q - 1);
    }
  }

  /** On one line, later bytes begin where earlier ones have ended. */
  lemma {:induction false} VisualMonotone(s: seq<byte>, p: nat, q: nat)
    requires p < q <= |s| && LineOf(s, p) == LineOf(s, q)
    ensures s[p] != NEWLINE && VisualAt(s, p) + Width(s[p], VisualAt(s, p)) <= VisualAt(s, q)
    decreases q - p
  {
    LineOfMonotone(s, p, q - 1);
    if p < q - 1 {
      VisualMonotone(s, p, q - 1);
    }
  }

  /** Hit-testing inverts drawing: any point of a drawn cell leads back to its byte. */
  lemma {:induction false} HitInvertsDraw(s: seq<byte>, top: nat, left: nat, c: Cell, x: int, y: int, r: nat)
    requires Visible(s, top, left, c) && InCell(left, c, x, y)
    requires Hit(s, top, left, x, y, r)
    ensures r == c.offset
  {
    hide LineOf, VisualAt;
    assert RowAt(y) == c.row && left + ColumnAt(x) == c.column;
    LineOfMonotone(s, c.offset, |s|);
    if r < c.offset {
      VisualMonotone(s, r, c.offset);
    } else if c.offset < r {
      VisualMonotone(s, c.offset, r);
    }
  }

  /** A click is never ambiguous. */
  lemma {:induction false} HitUnique(s: seq<byte>, top: nat, left: nat, x: int, y: int, q: nat, r: nat)
    requires Hit(s, top, left, x, y, q) && Hit(s, top, left, x, y, r)
    ensures q == r
  {
    hide LineOf, VisualAt;
    if q < r && LineOf(s, q) == LineOf(s, r) {
      VisualMonotone(s, q, r);
    } else if r < q && LineOf(s, q) == LineOf(s, r) {
      VisualMonotone(s, r, q);
    }
  }

  /** The start of a numbered line, or the end of the text when there is no such line. */
  ghost predicate IsLineOffset(s: seq<byte>, line: nat, r: nat) {
    && r <= |s|
    && if line > LineOf(s, |s|) then r == |s| else LineOf(s, r) == line && (r == 0 || s[r - 1] == NEWLINE)
  }

  lemma {:induction false} StepVisible(s: seq<byte>, p: nat)
    requires p < |s|
    ensures LineOf(s, p + 1) == LineOf(s, p) + if s[p] == NEWLINE then 1 else 0
    ensures VisualAt(s, p + 1) == if s[p] == NEWLINE then 0 else VisualAt(s, p) + Width(s[p], VisualAt(s, p))
  {
  }

  /** A newline begins the next line at column 0, a tab reaches the nearest multiple of four to the
      right, and every other byte takes one column. */
  lemma {:induction false} ColumnsAdvance(s: seq<byte>, p: nat)
    requires p < |s|
    ensures s[p] == 10 ==> VisualAt(s, p + 1) == 0
    ensures s[p] == 9 ==> VisualAt(s, p + 1) % 4 == 0 && VisualAt(s, p) < VisualAt(s, p + 1) <= VisualAt(s, p) + 4
    ensures s[p] != 9 && s[p] != 10 ==> VisualAt(s, p + 1) == VisualAt(s, p) + 1
    ensures VisualAt(s, 0) == 0
  {
    StepVisible(s, p);
    if s[p] == 9 {
      NextStop(VisualAt(s, p));
    }
  }

  lemma {:induction false} NextStop(column: nat)
    ensures (column + (4 - column % 4)) % 4 == 0
  {
  }

  /** Cells of six by nine pixels from (8, 30) on, forty rows of 110; points beside them count for
      the nearest. */
  lemma {:induction false} PointedCell(x: int, y: int)
    ensures RowAt(y) < 40 && ColumnAt(x) < 110
    ensures 30 <= y < 390 ==> 30 + 9 * RowAt(y) <= y < 30 + 9 * RowAt(y) + 9
    ensures 8 <= x < 668 ==> 8 + 6 * ColumnAt(x) <= x < 8 + 6 * ColumnAt(x) + 6
    ensures (y < 30 ==> RowAt(y) == 0) && (390 <= y ==> RowAt(y) == 39)
    ensures (x < 8 ==> ColumnAt(x) == 0) && (668 <= x ==> ColumnAt(x) == 109)
  {
  }

  /** Nothing before the first line shown is visible. */
  lemma {:induction false} FirstVisible(s: seq<byte>, top: nat, left: nat, position: nat)
    requires IsLineOffset(s, top, position)
    ensures forall c: Cell :: c.offset < position ==> !Visible(s, top, left, c)
    ensures position < |s| ==> LineOf(s, position) == top && VisualAt(s, position) == 0
  {
    hide LineOf;
    forall c: Cell | c.offset < position ensures !Visible(s, top, left, c) {
      LineOfMonotone(s, c.offset, |s|);
      if position > 0 && s[position - 1] == NEWLINE {
        LineOfMonotone(s, c.offset, position);
      }
    }
    LineOfMonotone(s, position, |s|);
  }

  /** Nothing from a line past the window on is visible. */
  lemma {:induction false} LastVisible(s: seq<byte>, top: nat, left: nat, position: nat)
    requires position <= |s| && (position < |s| ==> LineOf(s, position) >= top + VIEW_ROWS)
    ensures forall c: Cell :: position <= c.offset ==> !Visible(s, top, left, c)
  {
    hide LineOf, VisualAt;
    forall c: Cell | position <= c.offset ensures !Visible(s, top, left, c) {
      if c.offset < |s| {
        LineOfMonotone(s, position, c.offset);
      }
    }
  }
}
