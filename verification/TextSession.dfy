/**
 The whole editor of user/aarch64_textedit.c as one value: the text with its cursor and
 selection, the preferred column, the window, the flags, the clipboard and the saved text. Each
 event is a step on it, and a run is the steps up to the one that closes the editor.
 */
module TextSession {
  import opened Bytes
  import opened TextModel
  import opened TextView

  const READY := 0
  const SAVED := 1
  const FULL := 2
  const IO_ERROR := 3
  const CLOSE_REFUSED := 4

  const BACKSPACE := 8
  const KEY_LEFT := 0x11
  const KEY_RIGHT := 0x12
  const KEY_UP := 0x13
  const KEY_DOWN := 0x14
  const KEY_HOME := 0x15
  const KEY_END := 0x16
  const KEY_DELETE := 0x17
  const ESCAPE := 0x1b
  const KEY_F2_SAVE := 0x82
  const KEY_SHORTCUT_SAVE := 0x83
  const KEY_SELECT_ALL := 0x84
  const KEY_COPY := 0x85
  const KEY_CUT := 0x86
  const KEY_PASTE := 0x87

  /** A key or pointer report, with what the system answers to calls made while handling it. */
  datatype Event = Key(key: byte, saves: bool, copies: bool) | Pointer(pressed: bool, x: int, y: int) | Other

  predicate Saves(key: byte) {
    key == KEY_F2_SAVE || key == KEY_SHORTCUT_SAVE
  }

  predicate Moves(key: byte) {
    KEY_LEFT <= key <= KEY_END || key == KEY_SELECT_ALL
  }

  function Gap(a: nat, b: nat): nat {
    if a < b then b - a else a - b
  }

  /** Where a window of `size` goes so as to show `at`. */
  function Shown(start: nat, size: nat, at: nat): (r: nat)
    requires 0 < size
    ensures r <= at < r + size
    ensures forall t: nat :: t <= at < t + size ==> Gap(r, start) <= Gap(t, start)
  {
    if at < start then at else if at >= start + size then at - size + 1 else start
  }

  // The byte a point belongs to.

  lemma {:induction false} LineBegins(s: seq<byte>, line: nat, p: nat) returns (r: nat)
    requires p <= |s| && line <= LineOf(s, p)
    ensures r <= p && LineOf(s, r) == line && (r == 0 || s[r - 1] == NEWLINE)
  {
    if p == 0 || LineOf(s, p - 1) < line {
      r := p;
    } else {
      r := LineBegins(s, line, p - 1);
    }
  }

  lemma {:induction false} ColumnCovered(s: seq<byte>, column: nat, p: nat) returns (r: nat)
    requires p <= |s| && VisualAt(s, p) <= column
    ensures r <= |s| && LineOf(s, r) == LineOf(s, p) && VisualAt(s, r) <= column
    ensures r == |s| || s[r] == NEWLINE || column < VisualAt(s, r) + Width(s[r], VisualAt(s, r))
    decreases |s| - p
  {
    if p == |s| || s[p] == NEWLINE || column < VisualAt(s, p) + Width(s[p], VisualAt(s, p)) {
      r := p;
    } else {
      r := ColumnCovered(s, column, p + 1);
    }
  }

  lemma {:induction false} HitExists(s: seq<byte>, top: nat, left: nat, x: int, y: int) returns (r: nat)
    ensures Hit(s, top, left, x, y, r)
  {
    hide LineOf, Width;
    if top + RowAt(y) > LineOf(s, |s|) {
      r := |s|;
    } else {
      var start := LineBegins(s, top + RowAt(y), |s|);
      r := ColumnCovered(s, left + ColumnAt(x), start);
    }
  }

  /** Every point belongs to one offset, by `HitExists` and `HitUnique`. */
  ghost function OffsetOf(s: seq<byte>, top: nat, left: nat, x: int, y: int): (r: nat)
    ensures Hit(s, top, left, x, y, r)
  {
    assert exists r: nat :: Hit(s, top, left, x, y, r) by {
      var r := HitExists(s, top, left, x, y);
    }
    var r: nat :| Hit(s, top, left, x, y, r);
    r
  }

  datatype Session = Session(doc: Doc, preferred: nat, top: nat, left: nat, dragging: bool, dirty: bool,
                             status: nat, clipboard: seq<byte>, saved: seq<byte>)
  {
    /** A clean text is the one last loaded or saved. */
    ghost predicate Valid() {
      doc.Valid() && (!dirty ==> doc.text == saved)
    }

    function Edited(d: Doc): Session
      requires d.Valid()
    {
      this.(doc := d, preferred := Column(d.text, d.cursor), dirty := true, status := READY)
    }

    function At(p: nat): Session {
      this.(doc := doc.MoveTo(p), dragging := false)
    }

    function DeleteSelection(): Session
      requires doc.Valid()
    {
      if doc.HasSelection() then Edited(doc.DeleteSelection()) else this
    }

    function Insert(typed: byte): Session
      requires doc.Valid()
    {
      if !Insertable(if typed == RETURN then NEWLINE else typed) then this
      else if |doc.DeleteSelection().text| == TEXT_CAPACITY then this.(status := FULL)
      else Edited(doc.Insert(typed)).(dragging := false)
    }

    function Backspace(): Session
      requires doc.Valid()
    {
      if doc.HasSelection() then DeleteSelection()
      else if doc.cursor == 0 then this
      else Edited(doc.Backspace()).(dragging := false)
    }

    /** Forward delete leaves the preferred column what it was. */
    function Delete(): Session
      requires doc.Valid()
    {
      if doc.HasSelection() then DeleteSelection()
      else if doc.cursor == |doc.text| then this
      else this.(doc := doc.Delete(), dirty := true, status := READY)
    }

    function Walk(p: nat): Session
      requires p <= |doc.text|
    {
      At(p).(preferred := Column(doc.text, p))
    }

    /** Up or down; at the first or last line nothing changes, not even the selection. */
    function Vertical(up: bool): Session
      requires doc.Valid()
    {
      if up then
        if LineStart(doc.text, doc.cursor) == 0 then this else At(Above(doc.text, doc.cursor, preferred))
      else
        if LineEnd(doc.text, doc.cursor) == |doc.text| then this else At(Below(doc.text, doc.cursor, preferred))
    }

    function Navigate(key: byte): Session
      requires doc.Valid() && Moves(key)
    {
      if key == KEY_LEFT then Walk(if doc.cursor == 0 then 0 else doc.cursor - 1)
      else if key == KEY_RIGHT then Walk(Min(doc.cursor + 1, |doc.text|))
      else if key == KEY_UP then Vertical(true)
      else if key == KEY_DOWN then Vertical(false)
      else if key == KEY_HOME then At(LineStart(doc.text, doc.cursor)).(preferred := 0)
      else if key == KEY_END then Walk(LineEnd(doc.text, doc.cursor))
      else SelectAll()
    }

    /** The preferred column stays what it was. */
    function SelectAll(): Session {
      this.(doc := Doc(doc.text, |doc.text|, 0), dragging := false)
    }

    function Copy(ok: bool): Session
      requires doc.Valid()
    {
      if ok && doc.HasSelection() then this.(clipboard := doc.Selected()) else this
    }

    function Cut(ok: bool): Session
      requires doc.Valid()
    {
      if ok && doc.HasSelection() then Copy(ok).DeleteSelection() else this
    }

    function Paste(input: seq<byte>): Session
      requires doc.Valid()
    {
      var cut, pasted := doc.DeleteSelection(), doc.Paste(input);
      var added := |pasted.text| != |cut.text|;
      var changed := doc.HasSelection() || added;
      this.(doc := pasted, preferred := Column(pasted.text, pasted.cursor), dragging := false,
            dirty := dirty || changed,
            status := if |input| > TEXT_CAPACITY - |cut.text| then FULL else if changed then READY else status)
    }

    function Save(ok: bool): Session {
      if ok then this.(dirty := false, status := SAVED, saved := doc.text) else this.(status := IO_ERROR)
    }

    function Scrolled(): Session
      requires doc.Valid()
    {
      this.(top := Shown(top, VIEW_ROWS, LineOf(doc.text, doc.cursor)),
            left := Shown(left, VIEW_COLUMNS, Column(doc.text, doc.cursor)))
    }

    /** While the button is down, or as it is released, the cursor is at the point; the button
        going down drops the anchor there. */
    ghost function Point(pressed: bool, x: int, y: int): Session
      requires doc.Valid()
    {
      if !pressed && !dragging then this
      else
        var p := OffsetOf(doc.text, top, left, x, y);
        this.(doc := Doc(doc.text, p, if dragging then doc.anchor else p), preferred := Column(doc.text, p),
              dragging := pressed).Scrolled()
    }

    function Press(key: byte, saves: bool, copies: bool): Session
      requires doc.Valid()
    {
      if key == BACKSPACE then Backspace()
      else if key == KEY_DELETE then Delete()
      else if Moves(key) then Navigate(key)
      else if key == KEY_COPY then Copy(copies)
      else if key == KEY_CUT then Cut(copies)
      else if key == KEY_PASTE then (if |clipboard| <= TEXT_CAPACITY then Paste(clipboard) else this)
      else if Saves(key) then Save(saves)
      else if key == ESCAPE then this.(status := CLOSE_REFUSED)
      else if Insertable(key) then Insert(key)
      else this
    }

    /** Escape closes a clean editor. */
    predicate Closes(event: Event) {
      event.Key? && event.key == ESCAPE && !dirty
    }
  }

  /** Typing in terms of the text without the selection. */
  lemma {:induction false} InsertIs(s: Session, typed: byte)
    requires s.Valid()
    ensures var b, d := if typed == RETURN then NEWLINE else typed, s.doc.DeleteSelection();
            s.Insert(typed) ==
            if !Insertable(b) then s
            else if |d.text| == TEXT_CAPACITY then s.(status := FULL)
            else
              var e := Doc(With(d.text, d.cursor, b), d.cursor + 1, d.cursor + 1);
              s.(doc := e, preferred := Column(e.text, e.cursor), dragging := false, dirty := true, status := READY)
  {
    hide LineStart, With;
  }

  lemma {:induction false} PasteClean(s: Session, input: seq<byte>)
    requires s.Valid()
    ensures s.Paste(input).Valid()
  {
    hide LineStart, LineEnd;
    var cut := s.doc.DeleteSelection();
    var room := TEXT_CAPACITY - |cut.text|;
    if !s.doc.HasSelection() && |s.doc.Paste(input).text| == |cut.text| {
      NoSelection(s.doc);
      InsertAllNothing(cut, if |input| > room then input[..room] else input);
    }
  }

  lemma {:induction false} PressClean(s: Session, key: byte, saves: bool, copies: bool)
    requires s.Valid()
    ensures s.Press(key, saves, copies).Valid()
  {
    hide LineStart, LineEnd, Session.Paste;
    if key == KEY_PASTE {
      PasteClean(s, s.clipboard);
    }
  }

  /** One event; the closing one and an empty key report change nothing. */
  ghost function Step(s: Session, event: Event): (r: Session)
    requires s.Valid()
    ensures r.Valid()
  {
    match event
    case Other => s
    case Pointer(pressed, x, y) => s.Point(pressed, x, y)
    case Key(key, saves, copies) =>
      PressClean(s, key, saves, copies);
      if key == 0 || s.Closes(event) then s else s.Press(key, saves, copies).Scrolled()
  }

  /** The session after the events, up to the one that closes the editor. */
  ghost function After(s: Session, events: seq<Event>): (r: (Session, bool))
    requires s.Valid()
    ensures r.0.Valid()
  {
    if events == [] then (s, false)
    else
      var (t, closed) := After(s, events[..|events| - 1]);
      var event := events[|events| - 1];
      if closed || t.Closes(event) then (t, true) else (Step(t, event), false)
  }

  /** An editor just opened: the file's text, or nothing, and nothing to save. */
  function Opened(text: seq<byte>, clipboard: seq<byte>): Session {
    Session(Doc(text, 0, 0), 0, 0, 0, false, false, READY, clipboard, text)
  }
}
