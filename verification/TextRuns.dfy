/**
 What holds of every run of the editor: which text is saved, which keys undo each other, when the
 cursor keeps to its preferred column, and what can get into the text.
 */
module TextRuns {
  import opened Bytes
  import opened TextModel
  import opened TextView
  import opened TextSession

  // Closing and saving.

  lemma {:induction false} AfterPrefix(s: Session, events: seq<Event>, k: nat)
    requires s.Valid() && k < |events|
    ensures var (t, closed) := After(s, events[..k]);
            After(s, events[..k + 1]) == if closed || t.Closes(events[k]) then (t, true) else (Step(t, events[k]), false)
  {
    assert events[..k + 1][..k] == events[..k];
  }

  lemma {:induction false} StepCloses(s: Session, event: Event)
    requires s.Valid()
    ensures s.Closes(event) ==> Step(s, event) == s
  {
  }

  /** Nothing happens after the editor has closed. */
  lemma {:induction false} ClosedStays(s: Session, events: seq<Event>, k: nat)
    requires s.Valid() && k <= |events| && After(s, events[..k]).1
    ensures After(s, events) == After(s, events[..k])
    decreases |events| - k
  {
    if k < |events| {
      AfterPrefix(s, events, k);
      ClosedStays(s, events, k + 1);
    } else {
      assert events[..k] == events;
    }
  }

  /** Whatever was done, an editor that has closed shows the saved text. */
  lemma {:induction false} ClosesClean(s: Session, events: seq<Event>)
    requires s.Valid() && After(s, events).1
    ensures var t := After(s, events).0; !t.dirty && t.doc.text == t.saved
  {
    hide Step;
    var n := |events| - 1;
    if After(s, events[..n]).1 {
      ClosesClean(s, events[..n]);
    }
  }

  predicate SavesNow(event: Event) {
    event.Key? && Saves(event.key) && event.saves
  }

  lemma {:induction false} StepSaved(s: Session, event: Event)
    requires s.Valid()
    ensures Step(s, event).saved == if SavesNow(event) then s.doc.text else s.saved
  {
    hide LineStart, LineEnd, LineOf;
  }

  /** The saved text is the one shown at the last successful save of the run, or the first one. */
  lemma {:induction false} SavedIsLastSave(s: Session, events: seq<Event>, from: nat)
    requires s.Valid() && from <= |events| && !After(s, events[..from]).1
    requires forall k :: from <= k < |events| ==> !SavesNow(events[k])
    ensures from == 0 ==> After(s, events).0.saved == s.saved
    ensures from > 0 && SavesNow(events[from - 1]) ==> After(s, events).0.saved == After(s, events[..from - 1]).0.doc.text
    decreases |events|
  {
    hide Step;
    if from < |events| {
      var n := |events| - 1;
      assert events[..n][..from] == events[..from];
      SavedIsLastSave(s, events[..n], from);
      if from > 0 {
        assert events[..n][..from - 1] == events[..from - 1];
      }
      StepSaved(After(s, events[..n]).0, events[n]);
    } else {
      assert events[..from] == events;
      if from > 0 {
        StepSaved(After(s, events[..from - 1]).0, events[from - 1]);
      }
    }
  }

  // Two keys that undo each other.

  lemma {:induction false} AfterTwo(s: Session, a: Event, b: Event)
    requires s.Valid() && !s.Closes(a) && !Step(s, a).Closes(b)
    ensures After(s, [a, b]) == (Step(Step(s, a), b), false)
  {
    hide Step;
    var both := [a, b];
    AfterPrefix(s, both, 0);
    AfterPrefix(s, both, 1);
    assert both[..0] == [] && both[..2] == both;
  }

  /** Cutting a selection of insertable bytes and pasting restores the text, by keys alone. */
  lemma {:induction false} CutPasteKeys(s: Session, cut: Event, paste: Event)
    requires s.Valid() && s.doc.HasSelection() && AllInsertable(s.doc.Selected())
    requires cut.Key? && cut.key == KEY_CUT && cut.copies && paste.Key? && paste.key == KEY_PASTE
    ensures var (t, closed) := After(s, [cut, paste]);
            !closed && t.doc == Doc(s.doc.text, s.doc.To(), s.doc.To()) && t.clipboard == s.doc.Selected() && t.saved == s.saved
  {
    hide LineStart, LineEnd, LineOf, Doc.Paste;
    AfterTwo(s, cut, paste);
    var a := Step(s, cut);
    assert a.doc == s.doc.DeleteSelection() && a.clipboard == s.doc.Selected() && a.saved == s.saved;
    CutThenPaste(s.doc);
  }

  /** Up and Down, by keys: the cursor comes back exactly if it was settled. */
  lemma {:induction false} UpDownKeys(s: Session, up: Event, down: Event)
    requires s.Valid() && LineStart(s.doc.text, s.doc.cursor) != 0
    requires up.Key? && up.key == KEY_UP && down.Key? && down.key == KEY_DOWN
    ensures var (t, closed) := After(s, [up, down]);
            && !closed && t.doc.text == s.doc.text && t.preferred == s.preferred
            && (t.doc.cursor == s.doc.cursor <==> Settled(s.doc.text, s.doc.cursor, s.preferred))
  {
    hide LineStart, LineEnd, LineOf, Above, Below, Settled;
    AfterTwo(s, up, down);
    UpThenDown(s.doc.text, s.doc.cursor, s.preferred);
    LineOfAbove(s.doc.text, s.doc.cursor, s.preferred);
  }

  lemma {:induction false} DownUpKeys(s: Session, down: Event, up: Event)
    requires s.Valid() && LineEnd(s.doc.text, s.doc.cursor) != |s.doc.text|
    requires up.Key? && up.key == KEY_UP && down.Key? && down.key == KEY_DOWN
    ensures var (t, closed) := After(s, [down, up]);
            && !closed && t.doc.text == s.doc.text && t.preferred == s.preferred
            && (t.doc.cursor == s.doc.cursor <==> Settled(s.doc.text, s.doc.cursor, s.preferred))
  {
    hide LineStart, LineEnd, LineOf, Above, Below, Settled;
    AfterTwo(s, down, up);
    DownThenUp(s.doc.text, s.doc.cursor, s.preferred);
    LineOfBelow(s.doc.text, s.doc.cursor, s.preferred);
  }

  // When the cursor is settled.

  ghost predicate CursorSettled(s: Session)
    requires s.Valid()
  {
    Settled(s.doc.text, s.doc.cursor, s.preferred)
  }

  lemma {:induction false} NavigateSettles(s: Session, key: byte)
    requires s.Valid() && CursorSettled(s) && Moves(key) && key != KEY_SELECT_ALL
    ensures var t := s.Navigate(key); t.doc.Valid() && Settled(t.doc.text, t.doc.cursor, t.preferred)
  {
    hide LineStart, LineEnd, LineOf, Above, Below, IsLine;
    var d := s.doc;
    if key == KEY_UP && LineStart(d.text, d.cursor) != 0 {
      UpThenDown(d.text, d.cursor, s.preferred);
    } else if key == KEY_DOWN && LineEnd(d.text, d.cursor) != |d.text| {
      DownThenUp(d.text, d.cursor, s.preferred);
    } else if key == KEY_HOME {
      LineAround(d.text, d.cursor);
      SameLine(d.text, LineStart(d.text, d.cursor), LineEnd(d.text, d.cursor), LineStart(d.text, d.cursor));
    }
  }

  /** Every event but Delete and Select All leaves a settled cursor settled. */
  lemma {:induction false} StepSettles(s: Session, event: Event)
    requires s.Valid() && CursorSettled(s)
    requires !(event.Key? && (event.key == KEY_DELETE || event.key == KEY_SELECT_ALL))
    ensures CursorSettled(Step(s, event))
  {
    hide LineStart, LineEnd, LineOf, Session.Navigate, Doc.Insert, Doc.Backspace, Doc.DeleteSelection, Doc.Paste;
    if event.Key? && Moves(event.key) {
      NavigateSettles(s, event.key);
    }
  }

  /** So in an editor just opened, as long as neither key is used, Up and Down undo each other. */
  lemma {:induction false} RunSettles(text: seq<byte>, clipboard: seq<byte>, events: seq<Event>)
    requires |text| <= TEXT_CAPACITY
    requires forall k :: 0 <= k < |events| && events[k].Key? ==> events[k].key != KEY_DELETE && events[k].key != KEY_SELECT_ALL
    ensures CursorSettled(After(Opened(text, clipboard), events).0)
  {
    hide Step;
    if events != [] {
      var n := |events| - 1;
      RunSettles(text, clipboard, events[..n]);
      StepSettles(After(Opened(text, clipboard), events[..n]).0, events[n]);
    }
  }

  /** Select All leaves a stale preferred column behind: with `a` over `bc`, Select All puts the
      cursor at 4, and Up and Down bring it to 2. */
  lemma {:induction false} StaleColumn(clipboard: seq<byte>)
    ensures var s := Opened([97, NEWLINE, 98, 99], clipboard);
            var all, up, down := Key(KEY_SELECT_ALL, false, false), Key(KEY_UP, false, false), Key(KEY_DOWN, false, false);
            && After(s, [all]).0.doc.cursor == 4
            && After(s, [all, up, down]).0.doc.cursor == 2
  {
    var s := Opened([97, NEWLINE, 98, 99], clipboard);
    var t: seq<byte> := [97, NEWLINE, 98, 99];
    var all, up, down := Key(KEY_SELECT_ALL, false, false), Key(KEY_UP, false, false), Key(KEY_DOWN, false, false);
    assert LineStart(t, 3) == LineStart(t, 2) == 2 && LineStart(t, 1) == LineStart(t, 0) == 0;
    assert LineEnd(t, 1) == 1 && LineEnd(t, 3) == LineEnd(t, 4) == 4;
    assert [all][..0] == [] && [all, up][..1] == [all] && [all, up, down][..2] == [all, up];
    hide LineStart, LineEnd, LineOf;
    var s1 := Step(s, all);
    assert After(s, [all]) == (s1, false);
    assert s1.doc == Doc(t, 4, 0) && s1.preferred == 0;
    var s2 := Step(s1, up);
    assert After(s, [all, up]) == (s2, false);
    assert s2.doc == Doc(t, 0, 0) && s2.preferred == 0;
    var s3 := Step(s2, down);
    assert After(s, [all, up, down]) == (s3, false);
  }

  // What gets into the text.

  lemma {:induction false} RemovingInsertable(d: Doc)
    requires d.Valid() && AllInsertable(d.text)
    ensures AllInsertable(d.DeleteSelection().text) && AllInsertable(d.Backspace().text) && AllInsertable(d.Delete().text)
  {
    hide Insertable;
  }

  lemma {:induction false} AddingInsertable(d: Doc, typed: byte, input: seq<byte>)
    requires d.Valid() && AllInsertable(d.text)
    ensures AllInsertable(d.Insert(typed).text) && AllInsertable(d.Paste(input).text)
  {
    hide Insertable, Doc.Paste, Accepted, Doc.Backspace, Doc.Delete;
    RemovingInsertable(d);
    var room := TEXT_CAPACITY - |d.text| + (d.To() - d.From());
    PasteSplices(d, input);
    AcceptedIsInsertable(if |input| > room then input[..room] else input);
  }

  lemma {:induction false} StepInsertable(s: Session, event: Event)
    requires s.Valid() && AllInsertable(s.doc.text)
    ensures AllInsertable(Step(s, event).doc.text)
  {
    hide LineStart, LineEnd, LineOf, AllInsertable, Doc.Paste, Doc.Insert, Doc.DeleteSelection, Doc.Backspace, Doc.Delete;
    RemovingInsertable(s.doc);
    if event.Key? {
      AddingInsertable(s.doc, event.key, s.clipboard);
    }
  }

  /** A text of insertable bytes stays one, whatever is typed, pasted or left on the clipboard, so
      cutting any selection of it and pasting it back restores it. */
  lemma {:induction false} RunInsertable(s: Session, events: seq<Event>)
    requires s.Valid() && AllInsertable(s.doc.text)
    ensures AllInsertable(After(s, events).0.doc.text)
    ensures AllInsertable(After(s, events).0.doc.Selected())
  {
    hide Step;
    if events != [] {
      var n := |events| - 1;
      RunInsertable(s, events[..n]);
      StepInsertable(After(s, events[..n]).0, events[n]);
    }
  }
}
