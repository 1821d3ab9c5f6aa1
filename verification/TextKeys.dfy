/**
 What each key of the editor does, byte for byte: the text around the cursor or selection, where
 the cursor goes, and which flags change.
 */
module TextKeys {
  import opened Bytes
  import opened TextModel
  import opened TextView
  import opened TextSession
  import opened TextRuns

  /** Both ends of the selection. */
  ghost function Low(s: Session): nat {
    if s.doc.anchor < s.doc.cursor then s.doc.anchor else s.doc.cursor
  }

  ghost function High(s: Session): nat {
    if s.doc.anchor < s.doc.cursor then s.doc.cursor else s.doc.anchor
  }

  ghost predicate IsKey(e: Event, key: nat) {
    e.Key? && e.key == key
  }

  /** The line of `p` begins at `q`. */
  ghost predicate LineBeginsAt(text: seq<byte>, p: nat, q: nat) {
    q <= p <= |text| && (q == 0 || text[q - 1] == 10) && forall i :: q <= i < p ==> text[i] != 10
  }

  ghost predicate LineEndsAt(text: seq<byte>, p: nat, q: nat) {
    p <= q <= |text| && (q == |text| || text[q] == 10) && forall i :: p <= i < q ==> text[i] != 10
  }

  /** The preferred column is the cursor's. */
  ghost predicate PrefersHere(s: Session) {
    exists q: nat :: LineBeginsAt(s.doc.text, s.doc.cursor, q) && s.preferred == s.doc.cursor - q
  }

  /** An edit: the text has changed, nothing is selected, and the preferred column follows. */
  ghost predicate Edits(s: Session, t: Session, text: seq<byte>, cursor: nat) {
    && t.doc == Doc(text, cursor, cursor) && PrefersHere(t)
    && t.dirty && t.status == 0 && t.saved == s.saved
  }

  ghost predicate SameButView(s: Session, t: Session) {
    t == s.(top := t.top, left := t.left)
  }

  lemma {:induction false} ColumnIs(s: Session)
    requires s.doc.Valid() && s.preferred == Column(s.doc.text, s.doc.cursor)
    ensures PrefersHere(s)
  {
    StartOfLine(s.doc.text, s.doc.cursor);
    assert LineBeginsAt(s.doc.text, s.doc.cursor, LineStart(s.doc.text, s.doc.cursor));
  }

  // Editing.

  lemma {:induction false} BackspaceKey(s: Session, e: Event)
    requires s.Valid() && IsKey(e, 8)
    ensures var t, d, p := Step(s, e), s.doc, s.doc.cursor;
            && (Low(s) < High(s) ==> Edits(s, t, d.text[..Low(s)] + d.text[High(s)..], Low(s)))
            && (Low(s) == High(s) && p > 0 ==> Edits(s, t, d.text[..p - 1] + d.text[p..], p - 1))
            && (Low(s) == High(s) && p == 0 ==> SameButView(s, t))
  {
    hide LineStart, LineEnd, LineOf, PrefersHere;
    var t := Step(s, e);
    if t.preferred == Column(t.doc.text, t.doc.cursor) {
      ColumnIs(t);
    }
  }

  lemma {:induction false} DeleteKey(s: Session, e: Event)
    requires s.Valid() && IsKey(e, 0x17)
    ensures var t, d, p := Step(s, e), s.doc, s.doc.cursor;
            && (Low(s) < High(s) ==> Edits(s, t, d.text[..Low(s)] + d.text[High(s)..], Low(s)))
            && (Low(s) == High(s) && p < |d.text| ==>
                  t.doc == Doc(d.text[..p] + d.text[p + 1..], p, p) && t.dirty && t.status == 0 && t.preferred == s.preferred && t.saved == s.saved)
            && (Low(s) == High(s) && p == |d.text| ==> SameButView(s, t))
  {
    hide LineStart, LineEnd, LineOf, PrefersHere;
    var t := Step(s, e);
    if t.preferred == Column(t.doc.text, t.doc.cursor) {
      ColumnIs(t);
    }
  }

  lemma {:induction false} TypedSplice(text: seq<byte>, low: nat, high: nat, b: byte)
    requires low <= high <= |text|
    ensures With(Without(text, low, high - low), low, b) == text[..low] + [b] + text[high..]
  {
    WithoutParts(text, low, high - low);
  }

  /** A newline, a tab or a printing character replaces the selection, if there is room. */
  lemma {:induction false} TypeKey(s: Session, e: Event)
    requires s.Valid() && e.Key? && (e.key == 10 || e.key == 9 || 0x20 <= e.key <= 0x7e)
    ensures var t, d := Step(s, e), s.doc;
            && (|d.text| - (High(s) - Low(s)) < 2048 ==> Edits(s, t, d.text[..Low(s)] + [e.key] + d.text[High(s)..], Low(s) + 1) && !t.dragging)
            && (|d.text| - (High(s) - Low(s)) == 2048 ==> SameButView(s.(status := 2), t))
  {
    hide LineStart, LineEnd, LineOf, PrefersHere, Without, With, Session.Insert, Doc.Insert;
    var t, d := Step(s, e), s.doc;
    TypedSplice(d.text, Low(s), High(s), e.key);
    InsertIs(s, e.key);
    if t.preferred == Column(t.doc.text, t.doc.cursor) {
      ColumnIs(t);
    }
  }

  /** Typing and Backspace undo each other. */
  lemma {:induction false} TypeThenBackspace(s: Session, typed: Event, back: Event)
    requires s.Valid() && typed.Key? && (typed.key == 10 || typed.key == 9 || 0x20 <= typed.key <= 0x7e) && IsKey(back, 8)
    requires s.doc.anchor == s.doc.cursor && |s.doc.text| < 2048
    ensures After(s, [typed, back]).0.doc == s.doc
  {
    hide Step;
    var t, p := Step(s, typed), s.doc.cursor;
    TypeKey(s, typed);
    AfterTwo(s, typed, back);
    BackspaceKey(t, back);
    var text := s.doc.text;
    assert (text[..p] + [typed.key] + text[p..])[..p] == text[..p] && (text[..p] + [typed.key] + text[p..])[p + 1..] == text[p..];
    assert text[..p] + text[p..] == text;
  }

  /** Left and Delete do what Backspace does. */
  lemma {:induction false} LeftThenDelete(s: Session, left: Event, delete: Event, back: Event)
    requires s.Valid() && IsKey(left, 0x11) && IsKey(delete, 0x17) && IsKey(back, 8)
    requires s.doc.anchor == s.doc.cursor > 0
    ensures After(s, [left, delete]).0.doc == Step(s, back).doc
  {
    hide Step;
    ArrowKeys(s, left);
    AfterTwo(s, left, delete);
    DeleteKey(Step(s, left), delete);
    BackspaceKey(s, back);
  }

  // Moving.

  /** A move: the text stays, nothing is selected, no drag goes on. */
  ghost predicate GoesTo(s: Session, t: Session, cursor: nat) {
    SameButView(s.(doc := Doc(s.doc.text, cursor, cursor), dragging := false, preferred := t.preferred), t)
  }

  lemma {:induction false} ArrowKeys(s: Session, e: Event)
    requires s.Valid()
    ensures var t, p := Step(s, e), s.doc.cursor;
            && (IsKey(e, 0x11) ==> GoesTo(s, t, if p == 0 then 0 else p - 1) && PrefersHere(t))
            && (IsKey(e, 0x12) ==> GoesTo(s, t, if p == |s.doc.text| then p else p + 1) && PrefersHere(t))
  {
    hide LineStart, LineEnd, LineOf, PrefersHere, OffsetOf;
    var t := Step(s, e);
    if t.preferred == Column(t.doc.text, t.doc.cursor) {
      ColumnIs(t);
    }
  }

  lemma {:induction false} HomeEndKeys(s: Session, e: Event)
    requires s.Valid()
    ensures var t, p := Step(s, e), s.doc.cursor;
            && (IsKey(e, 0x15) ==> LineBeginsAt(s.doc.text, p, t.doc.cursor) && GoesTo(s, t, t.doc.cursor) && t.preferred == 0)
            && (IsKey(e, 0x16) ==> LineEndsAt(s.doc.text, p, t.doc.cursor) && GoesTo(s, t, t.doc.cursor) && PrefersHere(t))
  {
    hide LineStart, LineEnd, LineOf, PrefersHere, OffsetOf;
    var t := Step(s, e);
    StartOfLine(s.doc.text, s.doc.cursor);
    EndOfLine(s.doc.text, s.doc.cursor);
    if t.preferred == Column(t.doc.text, t.doc.cursor) {
      ColumnIs(t);
    }
  }

  /** The cursor goes to the preferred column of the line from `from` to `to`, or to that line's end. */
  ghost predicate GoesToLine(s: Session, t: Session, from: nat, to: nat) {
    && LineBeginsAt(s.doc.text, to, from) && LineEndsAt(s.doc.text, from, to)
    && GoesTo(s, t, from + if s.preferred < to - from then s.preferred else to - from)
    && t.preferred == s.preferred
  }

  /** Up goes to the line that ends just before this one begins; on the first line it does nothing. */
  lemma {:induction false} UpKey(s: Session, e: Event, begin: nat) returns (from: nat)
    requires s.Valid() && IsKey(e, 0x13) && LineBeginsAt(s.doc.text, s.doc.cursor, begin)
    ensures begin == 0 ==> SameButView(s, Step(s, e))
    ensures begin > 0 ==> GoesToLine(s, Step(s, e), from, begin - 1)
  {
    hide LineStart, LineEnd, LineOf;
    var text := s.doc.text;
    StartOfLine(text, s.doc.cursor);
    OneBeginning(text, s.doc.cursor, begin, LineStart(text, s.doc.cursor));
    from := 0;
    if begin > 0 {
      StartOfLine(text, begin - 1);
      from := LineStart(text, begin - 1);
    }
  }

  /** Down goes to the line that begins just after this one ends; on the last line it does nothing. */
  lemma {:induction false} DownKey(s: Session, e: Event, end: nat) returns (to: nat)
    requires s.Valid() && IsKey(e, 0x14) && LineEndsAt(s.doc.text, s.doc.cursor, end)
    ensures end == |s.doc.text| ==> SameButView(s, Step(s, e))
    ensures end < |s.doc.text| ==> GoesToLine(s, Step(s, e), end + 1, to)
  {
    hide LineStart, LineEnd, LineOf;
    var text := s.doc.text;
    EndOfLine(text, s.doc.cursor);
    OneEnd(text, s.doc.cursor, end, LineEnd(text, s.doc.cursor));
    to := end;
    if end < |text| {
      EndOfLine(text, end + 1);
      to := LineEnd(text, end + 1);
    }
  }

  lemma {:induction false} OneBeginning(text: seq<byte>, p: nat, q: nat, r: nat)
    requires LineBeginsAt(text, p, q) && LineBeginsAt(text, p, r)
    ensures q == r
  {
  }

  lemma {:induction false} OneEnd(text: seq<byte>, p: nat, q: nat, r: nat)
    requires LineEndsAt(text, p, q) && LineEndsAt(text, p, r)
    ensures q == r
  {
  }

  // Selecting, copying, saving, closing.

  lemma {:induction false} SelectAllKey(s: Session, e: Event)
    requires s.Valid() && IsKey(e, 0x84)
    ensures SameButView(s.(doc := Doc(s.doc.text, |s.doc.text|, 0), dragging := false), Step(s, e))
  {
    hide LineStart, LineEnd, LineOf;
  }

  lemma {:induction false} CopyKey(s: Session, e: Event)
    requires s.Valid() && IsKey(e, 0x85)
    ensures SameButView(if e.copies && Low(s) < High(s) then s.(clipboard := s.doc.text[Low(s)..High(s)]) else s, Step(s, e))
  {
    hide LineStart, LineEnd, LineOf;
  }

  lemma {:induction false} CutKey(s: Session, e: Event)
    requires s.Valid() && IsKey(e, 0x86)
    ensures var t := Step(s, e);
            if e.copies && Low(s) < High(s)
            then Edits(s, t, s.doc.text[..Low(s)] + s.doc.text[High(s)..], Low(s)) && t.clipboard == s.doc.text[Low(s)..High(s)]
            else SameButView(s, t)
  {
    hide LineStart, LineEnd, LineOf, PrefersHere;
    var t := Step(s, e);
    if e.copies && Low(s) < High(s) {
      ColumnIs(t);
    }
  }

  /** A return is stored as a newline, newlines, tabs and printing characters as they are, and nothing
      of any other byte. */
  lemma {:induction false} AcceptedByte(b: byte)
    ensures b == 13 ==> Accepted([b]) == [10]
    ensures b == 9 || b == 10 || 0x20 <= b <= 0x7e ==> Accepted([b]) == [b]
    ensures !(b == 9 || b == 10 || b == 13 || 0x20 <= b <= 0x7e) ==> Accepted([b]) == []
  {
    assert [b][..0] == [] && Accepted([b][..0]) == [];
  }

  /** Input is taken byte by byte, in order. */
  lemma {:induction false} AcceptedJoin(a: seq<byte>, b: seq<byte>)
    ensures Accepted(a + b) == Accepted(a) + Accepted(b)
    decreases |b|
  {
    if b == [] {
      assert a + b == a;
    } else {
      var init, last := b[..|b| - 1], b[|b| - 1];
      AcceptedJoin(a, init);
      assert (a + b)[..|a + b| - 1] == a + init && (a + b)[|a + b| - 1] == last;
    }
  }

  /** Paste types the clipboard over the selection: newlines for returns, nothing that cannot be
      typed, and no more than there is room for. */
  lemma {:induction false} PasteKey(s: Session, e: Event)
    requires s.Valid() && IsKey(e, 0x87)
    ensures var t, room := Step(s, e), 2048 - |s.doc.text| + (High(s) - Low(s));
            var a := Accepted(if |s.clipboard| > room then s.clipboard[..room] else s.clipboard);
            && (|s.clipboard| > 2048 ==> SameButView(s, t))
            && (|s.clipboard| <= 2048 ==>
                  && t.doc == Doc(s.doc.text[..Low(s)] + a + s.doc.text[High(s)..], Low(s) + |a|, Low(s) + |a|)
                  && PrefersHere(t) && !t.dragging && t.saved == s.saved
                  && t.dirty == (s.dirty || Low(s) < High(s) || a != [])
                  && t.status == if |s.clipboard| > room then 2 else if Low(s) < High(s) || a != [] then 0 else s.status)
  {
    hide LineStart, LineEnd, LineOf, PrefersHere, Accepted, Doc.Paste;
    var t := Step(s, e);
    PasteSplices(s.doc, s.clipboard);
    if |s.clipboard| <= 2048 {
      ColumnIs(t);
    }
  }

  /** Only a save that succeeds makes the text clean; then Escape closes, and otherwise is refused. */
  lemma {:induction false} SaveKeys(s: Session, e: Event, escape: Event)
    requires s.Valid() && (IsKey(e, 0x82) || IsKey(e, 0x83)) && IsKey(escape, 0x1b)
    ensures e.saves ==> SameButView(s.(dirty := false, status := 1, saved := s.doc.text), Step(s, e))
    ensures !e.saves ==> SameButView(s.(status := 3), Step(s, e))
    ensures s.Closes(escape) == !s.dirty
    ensures s.dirty ==> SameButView(s.(status := 4), Step(s, escape))
    ensures e.saves ==> After(s, [e, escape]).1
  {
    hide LineStart, LineEnd, LineOf;
    if e.saves {
      var both := [e, escape];
      AfterPrefix(s, both, 0);
      AfterPrefix(s, both, 1);
      assert both[..0] == [] && both[..2] == both;
    }
  }

  /** Any other key does nothing. */
  lemma {:induction false} OtherKeys(s: Session, e: Event)
    requires s.Valid() && e.Key? && e.key !in {8, 9, 10, 0x1b} && !(0x11 <= e.key <= 0x17) && !(0x20 <= e.key <= 0x7e) && !(0x82 <= e.key <= 0x87)
    ensures SameButView(s, Step(s, e))
  {
    hide LineStart, LineEnd, LineOf;
  }

  /** After every key that does not close the editor the caret is in the window. */
  lemma {:induction false} CaretShown(s: Session, e: Event)
    requires s.Valid() && e.Key? && e.key != 0 && !s.Closes(e)
    ensures var t := Step(s, e);
            && t.top <= LineOf(t.doc.text, t.doc.cursor) < t.top + 40
            && t.left <= Column(t.doc.text, t.doc.cursor) < t.left + 110
  {
    hide LineStart, LineEnd, LineOf, Session.Press;
    PressClean(s, e.key, e.saves, e.copies);
  }

  // Pointing.

  /** The button going down drops cursor and anchor at the point; held, it moves the cursor; let go,
      it does so once more; motion without it does nothing. */
  lemma {:induction false} PointerEvents(s: Session, pressed: bool, x: int, y: int, at: nat)
    requires s.Valid() && Hit(s.doc.text, s.top, s.left, x, y, at)
    ensures var t := Step(s, Pointer(pressed, x, y));
            && (!pressed && !s.dragging ==> t == s)
            && (pressed && !s.dragging ==> t.doc == Doc(s.doc.text, at, at) && t.dragging && PrefersHere(t))
            && (s.dragging ==> t.doc == Doc(s.doc.text, at, s.doc.anchor) && t.dragging == pressed && PrefersHere(t))
  {
    hide LineStart, LineEnd, LineOf, PrefersHere, Hit;
    HitUnique(s.doc.text, s.top, s.left, x, y, at, OffsetOf(s.doc.text, s.top, s.left, x, y));
    var t := Step(s, Pointer(pressed, x, y));
    if pressed || s.dragging {
      ColumnIs(t);
    }
  }
}
