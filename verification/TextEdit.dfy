/**
 struct editor of user/aarch64_textedit.c, its buffer edited in place, and the event
 loop of textedit_run without drawing.
 */
module TextEdit {
  import opened Bytes
  import opened TextModel
  import opened TextView
  import opened TextSession
  import opened TextRuns

  method ShiftDown(a: array<byte>, start: nat, count: nat, length: nat)
    requires start + count <= length <= a.Length
    modifies a
    ensures forall i :: 0 <= i < start || length - count <= i < a.Length ==> a[i] == old(a[i])
    ensures forall i :: start <= i < length - count ==> a[i] == old(a[i + count])
  {
    var index := start;
    while index + count < length
      invariant start <= index <= length - count
      invariant forall i :: 0 <= i < start || index <= i < a.Length ==> a[i] == old(a[i])
      invariant forall i :: start <= i < index ==> a[i] == old(a[i + count])
    {
      a[index] := a[index + count];
      index := index + 1;
    }
  }

  method ShiftUp(a: array<byte>, at: nat, length: nat)
    requires at <= length < a.Length
    modifies a
    ensures forall i :: 0 <= i <= at || length < i < a.Length ==> a[i] == old(a[i])
    ensures forall i :: at < i <= length ==> a[i] == old(a[i - 1])
  {
    var index := length;
    while index > at
      invariant at <= index <= length
      invariant forall i :: 0 <= i <= index || length < i < a.Length ==> a[i] == old(a[i])
      invariant forall i :: index < i <= length ==> a[i] == old(a[i - 1])
    {
      a[index] := a[index - 1];
      index := index - 1;
    }
  }

  method Clear(a: array<byte>, start: nat, count: nat)
    requires start + count <= a.Length
    modifies a
    ensures forall i :: 0 <= i < a.Length ==> a[i] == if start <= i < start + count then 0 else old(a[i])
  {
    for k := 0 to count
      invariant forall i :: 0 <= i < a.Length ==> a[i] == if start <= i < start + k then 0 else old(a[i])
    {
      a[start + k] := 0;
    }
  }

  class Editor {
    const text: array<byte>
    var length: nat
    var cursor: nat
    var anchor: nat
    var preferred: nat
    var top: nat
    var left: nat
    var dirty: bool
    var dragging: bool
    var status: nat
    /** The system clipboard, a faithful store. */
    var clipboard: seq<byte>
    /** The bytes of the buffer in use. */
    ghost var content: seq<byte>
    /** The text last loaded or completely saved. */
    ghost var saved: seq<byte>

    ghost predicate Shape()
      reads `length, `content, text
      ensures Shape() ==> |content| == length <= TEXT_CAPACITY == text.Length
    {
      && length <= TEXT_CAPACITY == text.Length
      && content == text[..length]
      && forall i :: length <= i < TEXT_CAPACITY ==> text[i] == 0
    }

    /** The object invariant: indices inside the text, zeroes behind it, and a clean text is the
        one last loaded or saved. */
    ghost predicate Valid()
      reads this, text
    {
      Shape() && cursor <= length && anchor <= length && (!dirty ==> content == saved)
    }

    ghost function State(): (s: Session)
      requires Valid()
      reads this, text
      ensures s.Valid()
    {
      Session(Doc(content, cursor, anchor), preferred, top, left, dragging, dirty, status, clipboard, saved)
    }

    /** A missing file starts empty and clean. */
    constructor (file: Option<seq<byte>>, clipboard: seq<byte>)
      ensures Valid() && fresh(text)
      ensures State() == Opened(if file.Some? && |file.value| <= TEXT_CAPACITY then file.value else [], clipboard)
    {
      text := new byte[TEXT_CAPACITY](_ => 0);
      length, cursor, anchor, preferred, top, left, status := 0, 0, 0, 0, 0, 0, READY;
      dirty, dragging, saved, content := false, false, [], [];
      this.clipboard := clipboard;
      new;
      if file.Some? && |file.value| <= TEXT_CAPACITY {
        Blit(text, 0, file.value);
        length := |file.value|;
        saved, content := file.value, file.value;
        assert text[..][..length] == saved;
        assert text[..length] == text[..][..length];
        assert forall i :: length <= i < TEXT_CAPACITY ==> text[..][i] == 0;
      }
    }

    method LineStartOf(position: nat) returns (r: nat)
      requires Shape()
      ensures position <= length ==> r == LineStart(content, position)
      ensures position > length ==> r == LineStart(content, length)
    {
      r := if position > length then length else position;
      ghost var p := r;
      while r != 0 && text[r - 1] != NEWLINE
        invariant r <= p && LineStart(content, r) == LineStart(content, p)
      {
        r := r - 1;
      }
    }

    method LineEndOf(position: nat) returns (r: nat)
      requires Shape()
      ensures position <= length ==> r == LineEnd(content, position)
      ensures position > length ==> r == length
    {
      r := if position > length then length else position;
      ghost var p := r;
      while r < length && text[r] != NEWLINE
        invariant p <= r <= length && LineEnd(content, r) == LineEnd(content, p)
      {
        r := r + 1;
      }
    }

    method CursorLine() returns (line: nat)
      requires Valid()
      ensures line == LineOf(content, cursor)
    {
      line := 0;
      for index := 0 to cursor
        invariant line == LineOf(content, index)
      {
        if text[index] == NEWLINE {
          line := line + 1;
        }
      }
    }

    method CursorColumn() returns (column: nat)
      requires Shape() && cursor <= length
      ensures column == Column(content, cursor)
    {
      var start := LineStartOf(cursor);
      column := cursor - start;
    }

    /** The bytes behind a removed stretch move down, and the end of the buffer is cleared. */
    method Remove(start: nat, count: nat)
      requires Shape() && start + count <= length
      modifies `length, `content, text
      ensures Shape() && length == old(length) - count
      ensures content == Without(old(content), start, count)
    {
      hide Without;
      ShiftDown(text, start, count, length);
      length := length - count;
      Clear(text, length, count);
      content := text[..length];
      WithoutIs(old(content), start, count, content);
    }

    /** The bytes from `at` on move up to let one in. */
    method Admit(at: nat, b: byte)
      requires Shape() && at <= length < TEXT_CAPACITY
      modifies `length, `content, text
      ensures Shape() && length == old(length) + 1
      ensures content == With(old(content), at, b)
    {
      hide With;
      ShiftUp(text, at, length);
      text[at] := b;
      length := length + 1;
      content := text[..length];
      WithIs(old(content), at, b, content);
    }

    method ClearSelection()
      modifies `anchor, `dragging
      ensures anchor == cursor && !dragging
    {
      anchor := cursor;
      dragging := false;
    }

    method Place(position: nat, mark: nat)
      requires Shape() && position <= length
      modifies `cursor, `anchor, `preferred
      ensures cursor == position && anchor == mark && preferred == Column(content, position)
    {
      cursor, anchor := position, mark;
      preferred := CursorColumn();
    }

    /** The cursor comes to rest: its column is preferred and nothing is selected. */
    method Rest()
      requires Shape() && cursor <= length
      modifies `anchor, `preferred, `dragging
      ensures preferred == Column(content, cursor) && anchor == cursor && !dragging
    {
      preferred := CursorColumn();
      ClearSelection();
    }

    method DeleteSelection() returns (deleted: bool)
      requires Valid()
      modifies `length, `content, `cursor, `anchor, `preferred, `dirty, `status, text
      ensures Valid() && State() == old(State()).DeleteSelection()
      ensures State().doc == old(State()).doc.DeleteSelection()
      ensures deleted == old(State()).doc.HasSelection() && (deleted ==> length < TEXT_CAPACITY)
    {
      hide Shape, LineStart, LineEnd, Without;
      deleted := anchor != cursor;
      if !deleted {
        NoSelection(State().doc);
        return;
      }
      var start, end := if anchor < cursor then anchor else cursor, if anchor < cursor then cursor else anchor;
      Remove(start, end - start);
      Place(start, start);
      dirty, status := true, READY;
    }

    method Insert(typed: byte)
      requires Valid()
      modifies `length, `content, `cursor, `anchor, `preferred, `dirty, `dragging, `status, text
      ensures Valid() && State() == old(State()).Insert(typed)
    {
      hide Shape, LineStart, LineEnd, Insertable, With, Doc.DeleteSelection, Session.Insert;
      InsertIs(State(), typed);
      var b := if typed == RETURN then NEWLINE else typed;
      if !Insertable(b) {
        return;
      }
      var _ := DeleteSelection();
      if length == TEXT_CAPACITY {
        status := FULL;
        return;
      }
      Admit(cursor, b);
      cursor := cursor + 1;
      Rest();
      dirty, status := true, READY;
    }

    method Backspace()
      requires Valid()
      modifies `length, `content, `cursor, `anchor, `preferred, `dirty, `dragging, `status, text
      ensures Valid() && State() == old(State()).Backspace()
    {
      hide Shape, LineStart, LineEnd, Doc.DeleteSelection, Without;
      var deleted := DeleteSelection();
      if deleted || cursor == 0 {
        return;
      }
      cursor := cursor - 1;
      Remove(cursor, 1);
      Rest();
      dirty, status := true, READY;
    }

    /** Forward delete: the preferred column stays what it was. */
    method Delete()
      requires Valid()
      modifies `length, `content, `cursor, `anchor, `preferred, `dirty, `status, text
      ensures Valid() && State() == old(State()).Delete()
    {
      hide Shape, LineStart, LineEnd, Doc.DeleteSelection, Without;
      var deleted := DeleteSelection();
      if deleted || cursor == length {
        return;
      }
      Remove(cursor, 1);
      dirty, status := true, READY;
    }

    method Left()
      requires Valid()
      modifies `cursor, `anchor, `preferred, `dragging
      ensures Valid() && State() == old(State()).Walk(if old(cursor) == 0 then 0 else old(cursor) - 1)
    {
      if cursor != 0 {
        cursor := cursor - 1;
      }
      Rest();
    }

    method Right()
      requires Valid()
      modifies `cursor, `anchor, `preferred, `dragging
      ensures Valid() && State() == old(State()).Walk(Min(old(cursor) + 1, length))
    {
      if cursor < length {
        cursor := cursor + 1;
      }
      Rest();
    }

    /** Up or down; at the first or last line nothing changes, not even the selection. */
    method Vertical(up: bool)
      requires Valid()
      modifies `cursor, `anchor, `dragging
      ensures Valid() && State() == old(State()).Vertical(up)
    {
      hide LineStart, LineEnd, LineOf;
      var start := LineStartOf(cursor);
      if up {
        if start == 0 {
          return;
        }
        var end := start - 1;
        var previous := LineStartOf(end);
        cursor := previous + if preferred < end - previous then preferred else end - previous;
      } else {
        var end := LineEndOf(cursor);
        if end == length {
          return;
        }
        var next := end + 1;
        var nextEnd := LineEndOf(next);
        cursor := next + if preferred < nextEnd - next then preferred else nextEnd - next;
      }
      ClearSelection();
    }

    method Home()
      requires Valid()
      modifies `cursor, `anchor, `preferred, `dragging
      ensures Valid() && State() == old(State()).Navigate(KEY_HOME)
    {
      cursor := LineStartOf(cursor);
      preferred := 0;
      ClearSelection();
    }

    method End()
      requires Valid()
      modifies `cursor, `anchor, `preferred, `dragging
      ensures Valid() && State() == old(State()).Navigate(KEY_END)
    {
      cursor := LineEndOf(cursor);
      Rest();
    }

    /** Typing bytes at the cursor, each filtered and shifted in. */
    method AdmitAll(input: seq<byte>) returns (inserted: nat)
      requires Shape() && cursor <= length && length + |input| <= TEXT_CAPACITY
      modifies `length, `content, `cursor, text
      ensures Shape() && cursor <= length && length == old(length) + inserted
      ensures Doc(content, cursor, cursor) == old(Doc(content, cursor, cursor)).InsertAll(input)
    {
      hide LineStart, LineEnd;
      ghost var start := Doc(content, cursor, cursor);
      inserted := 0;
      for index := 0 to |input|
        invariant Shape() && cursor <= length && inserted <= index && length == old(length) + inserted
        invariant Doc(content, cursor, cursor) == start.InsertAll(input[..index])
      {
        InsertAllNext(start, input, index);
        NoSelection(start.InsertAll(input[..index]));
        var b := if input[index] == RETURN then NEWLINE else input[index];
        if Insertable(b) {
          Admit(cursor, b);
          cursor := cursor + 1;
          inserted := inserted + 1;
        }
      }
      assert input[..|input|] == input;
    }

    /** Pasting is deleting the selection and typing the input that fits, byte by byte. */
    method InsertBytes(input: seq<byte>) returns (inserted: nat)
      requires Valid()
      modifies `length, `content, `cursor, `anchor, `preferred, `dirty, `dragging, `status, text
      ensures Valid() && State() == old(State()).Paste(input)
      ensures inserted == |State().doc.text| - |old(State()).doc.DeleteSelection().text|
    {
      hide Shape, LineStart, LineEnd, Insertable, Doc.DeleteSelection, Doc.InsertAll;
      var _ := DeleteSelection();
      ghost var start := State().doc;
      var available := TEXT_CAPACITY - length;
      var truncated := |input| > available;
      inserted := AdmitAll(if truncated then input[..available] else input);
      if inserted == 0 {
        InsertAllNothing(start, if truncated then input[..available] else input);
      }
      Rest();
      if inserted != 0 {
        dirty, status := true, READY;
      }
      if truncated {
        status := FULL;
      }
    }

    // Pointing and drawing.

    method OffsetForLine(target: nat) returns (r: nat)
      requires Shape()
      ensures IsLineOffset(content, target, r)
    {
      var line := 0;
      for index := 0 to length
        invariant line == LineOf(content, index) <= target
        invariant line == target ==> index == 0 || text[index - 1] == NEWLINE
      {
        if line == target {
          LineOfMonotone(content, index, length);
          return index;
        }
        if text[index] == NEWLINE {
          line := line + 1;
        }
      }
      return length;
    }

    method OffsetAt(x: int, y: int) returns (r: nat)
      requires Shape()
      ensures Hit(content, top, left, x, y, r)
    {
      var targetLine, targetColumn := top + RowAt(y), left + ColumnAt(x);
      r := OffsetForLine(targetLine);
      var end := LineEndOf(r);
      ghost var s := content;
      EndOfLine(s, r);
      var visual := 0;
      while r < end
        invariant r <= end && end == LineEnd(s, r)
        invariant targetLine <= LineOf(s, length) ==> LineOf(s, r) == targetLine && visual == VisualAt(s, r) <= targetColumn
        invariant targetLine > LineOf(s, length) ==> r == end == length
      {
        var width := Width(text[r], visual);
        if targetColumn < visual + width {
          return;
        }
        visual := visual + width;
        r := r + 1;
      }
    }

    /** The cells render fills: each that shows a byte of the text in the window, once. */
    method Layout() returns (cells: seq<Cell>)
      requires Shape()
      ensures forall c :: c in cells <==> Visible(content, top, left, c)
      ensures forall i, j :: 0 <= i < j < |cells| ==> cells[i] != cells[j]
    {
      hide LineOf, VisualAt;
      cells := [];
      ghost var s := content;
      var position := OffsetForLine(top);
      var line, column := top, 0;
      FirstVisible(s, top, left, position);
      while position < length && line < top + VIEW_ROWS
        invariant position <= length
        invariant position < length ==> line == LineOf(s, position) && column == VisualAt(s, position)
        invariant top <= line
        invariant forall c :: c in cells <==> c.offset < position && Visible(s, top, left, c)
        invariant forall i, j :: 0 <= i < j < |cells| ==> cells[i] != cells[j]
      {
        StepVisible(s, position);
        var b := text[position];
        if b == NEWLINE {
          line, column := line + 1, 0;
        } else {
          var width := Width(b, column);
          var more := CellsOf(position, column, width, line - top);
          cells := cells + more;
          column := column + width;
        }
        position := position + 1;
      }
      LastVisible(s, top, left, position);
    }

    method CellsOf(position: nat, column: nat, width: nat, row: nat) returns (cells: seq<Cell>)
      ensures forall c :: c in cells <==> c == Cell(position, c.column, row) && column <= c.column < column + width && left <= c.column < left + VIEW_COLUMNS
      ensures forall i, j :: 0 <= i < j < |cells| ==> cells[i] != cells[j]
    {
      cells := [];
      for k := 0 to width
        invariant forall c :: c in cells <==> c == Cell(position, c.column, row) && column <= c.column < column + k && left <= c.column < left + VIEW_COLUMNS
        invariant forall i, j :: 0 <= i < j < |cells| ==> cells[i] != cells[j]
      {
        if left <= column + k < left + VIEW_COLUMNS {
          cells := cells + [Cell(position, column + k, row)];
        }
      }
    }

    /** Scrolling just enough to bring the caret's line and column into the window. */
    method AdjustView()
      requires Valid()
      modifies `top, `left
      ensures Valid() && State() == old(State()).Scrolled()
    {
      var line := CursorLine();
      var column := CursorColumn();
      if line < top {
        top := line;
      } else if line >= top + VIEW_ROWS {
        top := line - VIEW_ROWS + 1;
      }
      if column < left {
        left := column;
      } else if column >= left + VIEW_COLUMNS {
        left := column - VIEW_COLUMNS + 1;
      }
    }

    // Files, clipboard and the event loop.

    /** Only a complete write and close count as saved. */
    method Save(ok: bool)
      requires Valid()
      modifies `dirty, `status, `saved
      ensures Valid() && State() == old(State()).Save(ok)
    {
      if !ok {
        status := IO_ERROR;
        return;
      }
      dirty, status, saved := false, SAVED, content;
    }

    method Copy(ok: bool) returns (copied: nat)
      requires Valid()
      modifies `clipboard
      ensures Valid() && State() == old(State()).Copy(ok)
      ensures copied == if ok then |State().doc.Selected()| else 0
    {
      copied := 0;
      if ok && anchor != cursor {
        var start, end := if anchor < cursor then anchor else cursor, if anchor < cursor then cursor else anchor;
        assert text[start..end] == text[..length][start..end];
        clipboard := text[start..end];
        copied := end - start;
      }
    }

    method Cut(ok: bool)
      requires Valid()
      modifies `length, `content, `cursor, `anchor, `preferred, `dirty, `status, `clipboard, text
      ensures Valid() && State() == old(State()).Cut(ok)
    {
      var copied := Copy(ok);
      if copied != 0 {
        var _ := DeleteSelection();
      }
    }

    method Paste()
      requires Valid()
      modifies `length, `content, `cursor, `anchor, `preferred, `dirty, `dragging, `status, text
      ensures Valid() && State() == old(State()).Press(KEY_PASTE, false, false)
    {
      if |clipboard| <= TEXT_CAPACITY {
        var _ := InsertBytes(clipboard);
      }
    }

    method SelectAll()
      requires Valid()
      modifies `anchor, `cursor, `dragging
      ensures Valid() && State() == old(State()).SelectAll()
    {
      anchor, cursor, dragging := 0, length, false;
    }

    /** Pressing starts or extends a drag selection, releasing ends it. */
    method Point(pressed: bool, x: int, y: int)
      requires Valid()
      modifies `cursor, `anchor, `preferred, `dragging, `top, `left
      ensures Valid() && State() == old(State()).Point(pressed, x, y)
    {
      if !pressed && !dragging {
        return;
      }
      hide LineStart, LineEnd, LineOf, Hit;
      var position := OffsetAt(x, y);
      HitUnique(content, top, left, x, y, position, OffsetOf(content, top, left, x, y));
      Place(position, if dragging then anchor else position);
      dragging := pressed;
      AdjustView();
    }

    /** One event. Editing keys act as on a plain sequence; everything else keeps the text; and the
        editor closes only on a clean text, which is the one last loaded or saved. */
    method Handle(event: Event) returns (closed: bool)
      requires Valid()
      modifies this, text
      ensures Valid() && State() == Step(old(State()), event) && closed == old(State()).Closes(event)
    {
      closed := false;
      match event
      case Other =>
      case Pointer(pressed, x, y) =>
        Point(pressed, x, y);
      case Key(key, saves, copies) =>
        if key == 0 {
          return;
        }
        closed := Press(key, saves, copies);
        if !closed {
          AdjustView();
        }
    }

    method Press(key: byte, saves: bool, copies: bool) returns (closed: bool)
      requires Valid() && key != 0
      modifies this, text
      ensures Valid() && closed == old(State()).Closes(Key(key, saves, copies))
      ensures State() == if closed then old(State()) else old(State()).Press(key, saves, copies)
    {
      hide LineStart, LineEnd;
      closed := false;
      if key == ESCAPE {
        if dirty {
          status := CLOSE_REFUSED;
        } else {
          closed := true;
        }
      } else if Saves(key) {
        Save(saves);
      } else if Moves(key) {
        Navigate(key);
      } else if key == KEY_COPY {
        var _ := Copy(copies);
      } else if key == KEY_CUT {
        Cut(copies);
      } else if key == KEY_PASTE {
        Paste();
      } else if key == BACKSPACE {
        Backspace();
      } else if key == KEY_DELETE {
        Delete();
      } else if Insertable(key) {
        Insert(key);
      }
    }

    method Navigate(key: byte)
      requires Valid() && Moves(key)
      modifies `cursor, `anchor, `preferred, `dragging
      ensures Valid() && State() == old(State()).Navigate(key)
    {
      if key == KEY_LEFT {
        Left();
      } else if key == KEY_RIGHT {
        Right();
      } else if key == KEY_UP {
        Vertical(true);
      } else if key == KEY_DOWN {
        Vertical(false);
      } else if key == KEY_HOME {
        Home();
      } else if key == KEY_END {
        End();
      } else {
        SelectAll();
      }
    }

    /** The loop of textedit_run: it leaves the session that the events up to the closing one make
        of the first. */
    method Run(events: seq<Event>) returns (closed: bool)
      requires Valid()
      modifies this, text
      ensures Valid() && (State(), closed) == After(old(State()), events)
      ensures closed ==> !dirty && content == saved
    {
      hide Step;
      closed := false;
      for k := 0 to |events|
        invariant Valid() && After(old(State()), events[..k]) == (State(), false)
      {
        AfterPrefix(old(State()), events, k);
        StepCloses(State(), events[k]);
        closed := Handle(events[k]);
        if closed {
          ClosedStays(old(State()), events, k + 1);
          return;
        }
      }
      assert events[..|events|] == events;
    }
  }
}
