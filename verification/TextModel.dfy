/**
 The editor over a plain byte sequence: what each command of user/aarch64_textedit.c
 means, without buffers.
 */
module TextModel {
  import opened Bytes

  const TEXT_CAPACITY := 2048
  const NEWLINE := 10
  const RETURN := 13
  const TAB := 9

  function Without(text: seq<byte>, at: nat, count: nat): (r: seq<byte>)
    requires at + count <= |text|
    ensures |r| == |text| - count
  {
    text[..at] + text[at + count..]
  }

  function With(text: seq<byte>, at: nat, b: byte): (r: seq<byte>)
    requires at <= |text|
    ensures |r| == |text| + 1
  {
    text[..at] + [b] + text[at..]
  }

  lemma {:induction false} WithoutParts(text: seq<byte>, at: nat, count: nat)
    requires at + count <= |text|
    ensures Without(text, at, count)[..at] == text[..at] && Without(text, at, count)[at..] == text[at + count..]
    ensures text[..at] + text[at..at + count] + text[at + count..] == text
  {
  }

  lemma {:induction false} WithoutIs(text: seq<byte>, at: nat, count: nat, r: seq<byte>)
    requires at + count <= |text| && |r| == |text| - count
    requires forall i :: 0 <= i < at ==> r[i] == text[i]
    requires forall i :: at <= i < |r| ==> r[i] == text[i + count]
    ensures r == Without(text, at, count)
  {
    forall i | 0 <= i < |r| ensures r[i] == Without(text, at, count)[i] {
      if i >= at {
        assert text[at + count..][i - at] == text[i + count];
      }
    }
  }

  lemma {:induction false} WithIs(text: seq<byte>, at: nat, b: byte, r: seq<byte>)
    requires at <= |text| && |r| == |text| + 1
    requires r[at] == b && forall i :: 0 <= i < at ==> r[i] == text[i]
    requires forall i :: at < i < |r| ==> r[i] == text[i - 1]
    ensures r == With(text, at, b)
  {
    forall i | 0 <= i < |r| ensures r[i] == With(text, at, b)[i] {
      if i > at {
        assert text[at..][i - 1 - at] == text[i - 1];
      }
    }
  }

  /** A text with a cursor and a selection anchor. */
  datatype Doc = Doc(text: seq<byte>, cursor: nat, anchor: nat)
  {
    predicate Valid() {
      cursor <= |text| <= TEXT_CAPACITY && anchor <= |text|
    }

    function From(): nat { if anchor < cursor then anchor else cursor }
    function To(): nat { if anchor < cursor then cursor else anchor }
    predicate HasSelection() { anchor != cursor }

    function Selected(): seq<byte>
      requires Valid()
    {
      text[From()..To()]
    }

    function MoveTo(p: nat): Doc {
      Doc(text, p, p)
    }

    function DeleteSelection(): (r: Doc)
      requires Valid()
      ensures r.Valid() && !r.HasSelection()
    {
      Doc(Without(text, From(), To() - From()), From(), From())
    }

    /** A typed byte replaces the selection; a full buffer takes nothing. */
    function Insert(typed: byte): (r: Doc)
      requires Valid()
      ensures r.Valid()
    {
      var b := if typed == RETURN then NEWLINE else typed;
      if !Insertable(b) then this
      else
        var d := DeleteSelection();
        if |d.text| == TEXT_CAPACITY then d
        else Doc(With(d.text, d.cursor, b), d.cursor + 1, d.cursor + 1)
    }

    function InsertAll(typed: seq<byte>): (r: Doc)
      requires Valid()
      ensures r.Valid()
    {
      if typed == [] then this
      else InsertAll(typed[..|typed| - 1]).Insert(typed[|typed| - 1])
    }

    /** The selection goes; of the input, as many bytes as there is room for are typed. */
    function Paste(input: seq<byte>): (r: Doc)
      requires Valid()
      ensures r.Valid()
    {
      var d := DeleteSelection();
      var room := TEXT_CAPACITY - |d.text|;
      d.InsertAll(if |input| > room then input[..room] else input)
    }

    function Backspace(): (r: Doc)
      requires Valid()
      ensures r.Valid()
    {
      if HasSelection() then DeleteSelection()
      else if cursor == 0 then this
      else Doc(Without(text, cursor - 1, 1), cursor - 1, cursor - 1)
    }

    function Delete(): (r: Doc)
      requires Valid()
      ensures r.Valid()
    {
      if HasSelection() then DeleteSelection()
      else if cursor == |text| then this
      else Doc(Without(text, cursor, 1), cursor, cursor)
    }
  }

  predicate Insertable(b: byte) {
    b == NEWLINE || b == TAB || 0x20 <= b <= 0x7e
  }

  /** What the editor stores of input bytes. */
  function Accepted(input: seq<byte>): (r: seq<byte>)
    ensures |r| <= |input|
  {
    if input == [] then []
    else
      var b := if input[|input| - 1] == RETURN then NEWLINE else input[|input| - 1];
      Accepted(input[..|input| - 1]) + if Insertable(b) then [b] else []
  }

  lemma {:induction false} InsertAllNext(d: Doc, typed: seq<byte>, k: nat)
    requires d.Valid() && k < |typed|
    ensures d.InsertAll(typed[..k + 1]) == d.InsertAll(typed[..k]).Insert(typed[k])
  {
    assert typed[..k + 1][..k] == typed[..k];
  }

  lemma {:induction false} NoSelection(d: Doc)
    requires d.Valid() && !d.HasSelection()
    ensures d.DeleteSelection() == d
  {
    assert d.text[..d.cursor] + d.text[d.cursor..] == d.text;
  }

  lemma {:induction false} WithBetween(front: seq<byte>, middle: seq<byte>, back: seq<byte>, b: byte)
    ensures With(front + middle + back, |front| + |middle|, b) == front + (middle + [b]) + back
  {
    var all := front + middle + back;
    assert all[..|front| + |middle|] == front + middle && all[|front| + |middle|..] == back;
  }

  /** Typing at an empty selection splices the accepted bytes in, if they fit. */
  lemma {:induction false} InsertAllSplices(d: Doc, typed: seq<byte>)
    requires d.Valid() && !d.HasSelection()
    requires |d.text| + |typed| <= TEXT_CAPACITY
    ensures var a := Accepted(typed);
            d.InsertAll(typed) == Doc(d.text[..d.cursor] + a + d.text[d.cursor..], d.cursor + |a|, d.cursor + |a|)
  {
    hide With, Doc.DeleteSelection;
    var front, back := d.text[..d.cursor], d.text[d.cursor..];
    assert front + back == d.text && front + [] + back == d.text;
    if typed != [] {
      var n := |typed| - 1;
      InsertAllSplices(d, typed[..n]);
      NoSelection(d.InsertAll(typed[..n]));
      WithBetween(front, Accepted(typed[..n]), back, if typed[n] == RETURN then NEWLINE else typed[n]);
      assert Accepted(typed[..n]) + [] == Accepted(typed[..n]);
    }
  }

  /** Typing that adds nothing changes nothing. */
  lemma {:induction false} InsertAllNothing(d: Doc, typed: seq<byte>)
    requires d.Valid() && !d.HasSelection() && |d.text| + |typed| <= TEXT_CAPACITY
    requires |d.InsertAll(typed).text| == |d.text|
    ensures d.InsertAll(typed).text == d.text
  {
    InsertAllSplices(d, typed);
    assert d.text[..d.cursor] + [] + d.text[d.cursor..] == d.text;
  }

  ghost predicate AllInsertable(s: seq<byte>) {
    forall i :: 0 <= i < |s| ==> Insertable(s[i])
  }

  lemma {:induction false} AcceptedAll(s: seq<byte>)
    requires AllInsertable(s)
    ensures Accepted(s) == s
  {
    if s != [] {
      AcceptedAll(s[..|s| - 1]);
    }
  }

  lemma {:induction false} AcceptedIsInsertable(s: seq<byte>)
    ensures AllInsertable(Accepted(s))
  {
    if s != [] {
      AcceptedIsInsertable(s[..|s| - 1]);
    }
  }

  /** What a paste leaves: the text around the selection with the accepted bytes between. */
  lemma {:induction false} PasteSplices(d: Doc, input: seq<byte>)
    requires d.Valid()
    ensures var room := TEXT_CAPACITY - |d.text| + (d.To() - d.From());
            var a := Accepted(if |input| > room then input[..room] else input);
            d.Paste(input) == Doc(d.text[..d.From()] + a + d.text[d.To()..], d.From() + |a|, d.From() + |a|)
  {
    hide Without, Accepted, Doc.InsertAll;
    var e := d.DeleteSelection();
    var room := TEXT_CAPACITY - |e.text|;
    WithoutParts(d.text, d.From(), d.To() - d.From());
    InsertAllSplices(e, if |input| > room then input[..room] else input);
  }

  /** Cutting a selection of insertable bytes and pasting it back restores the text. */
  lemma {:induction false} CutThenPaste(d: Doc)
    requires d.Valid() && AllInsertable(d.Selected())
    ensures d.DeleteSelection().Paste(d.Selected()) == Doc(d.text, d.To(), d.To())
  {
    hide Without, Accepted, Doc.Paste, AllInsertable;
    var cut, clip := d.DeleteSelection(), d.Selected();
    PasteSplices(cut, clip);
    AcceptedAll(clip);
    WithoutParts(d.text, d.From(), d.To() - d.From());
  }

  // Lines.

  function LineStart(s: seq<byte>, p: nat): (r: nat)
    requires p <= |s|
    ensures r <= p
  {
    if p == 0 || s[p - 1] == NEWLINE then p else LineStart(s, p - 1)
  }

  function LineEnd(s: seq<byte>, p: nat): (r: nat)
    requires p <= |s|
    ensures p <= r <= |s|
    decreases |s| - p
  {
    if p == |s| || s[p] == NEWLINE then p else LineEnd(s, p + 1)
  }

  function Column(s: seq<byte>, p: nat): nat
    requires p <= |s|
  {
    p - LineStart(s, p)
  }

  /** The number of the line that holds position `p`. */
  function LineOf(s: seq<byte>, p: nat): nat
    requires p <= |s|
  {
    if p == 0 then 0 else LineOf(s, p - 1) + if s[p - 1] == NEWLINE then 1 else 0
  }

  function Min(a: nat, b: nat): nat { if a < b then a else b }

  /** The cursor one line up (or down), as near the preferred column as that line is long. */
  function Above(s: seq<byte>, p: nat, preferred: nat): (r: nat)
    requires p <= |s|
    ensures r <= |s|
  {
    var start := LineStart(s, p);
    if start == 0 then p
    else LineStart(s, start - 1) + Min(preferred, start - 1 - LineStart(s, start - 1))
  }

  function Below(s: seq<byte>, p: nat, preferred: nat): (r: nat)
    requires p <= |s|
    ensures r <= |s|
  {
    var end := LineEnd(s, p);
    if end == |s| then p
    else end + 1 + Min(preferred, LineEnd(s, end + 1) - (end + 1))
  }

  /** `start` and `end` bound one line, newline excluded. */
  ghost predicate IsLine(s: seq<byte>, start: nat, end: nat) {
    && start <= end <= |s|
    && (start == 0 || s[start - 1] == NEWLINE)
    && (end == |s| || s[end] == NEWLINE)
    && forall i :: start <= i < end ==> s[i] != NEWLINE
  }

  lemma {:induction false} StartOfLine(s: seq<byte>, p: nat)
    requires p <= |s|
    ensures LineStart(s, p) == 0 || s[LineStart(s, p) - 1] == NEWLINE
    ensures forall i :: LineStart(s, p) <= i < p ==> s[i] != NEWLINE
  {
    if p > 0 && s[p - 1] != NEWLINE {
      StartOfLine(s, p - 1);
    }
  }

  lemma {:induction false} EndOfLine(s: seq<byte>, p: nat)
    requires p <= |s|
    ensures LineEnd(s, p) == |s| || s[LineEnd(s, p)] == NEWLINE
    ensures forall i :: p <= i < LineEnd(s, p) ==> s[i] != NEWLINE
    decreases |s| - p
  {
    if p < |s| && s[p] != NEWLINE {
      EndOfLine(s, p + 1);
    }
  }

  lemma {:induction false} LineAround(s: seq<byte>, p: nat)
    requires p <= |s|
    ensures IsLine(s, LineStart(s, p), LineEnd(s, p))
  {
    StartOfLine(s, p);
    EndOfLine(s, p);
  }

  lemma {:induction false} LineBefore(s: seq<byte>, start: nat, end: nat)
    requires IsLine(s, start, end) && start > 0
    ensures IsLine(s, LineStart(s, start - 1), start - 1)
  {
    StartOfLine(s, start - 1);
  }

  lemma {:induction false} LineAfter(s: seq<byte>, start: nat, end: nat)
    requires IsLine(s, start, end) && end < |s|
    ensures IsLine(s, end + 1, LineEnd(s, end + 1))
  {
    EndOfLine(s, end + 1);
  }

  /** Positions of one line share its ends. */
  lemma {:induction false} SameLine(s: seq<byte>, start: nat, end: nat, p: nat)
    requires IsLine(s, start, end) && start <= p <= end
    ensures LineStart(s, p) == start && LineEnd(s, p) == end
  {
    StartOfLine(s, p);
    EndOfLine(s, p);
  }

  /** The cursor sits where its preferred column puts it on its line. */
  ghost predicate Settled(s: seq<byte>, p: nat, preferred: nat)
    requires p <= |s|
  {
    Column(s, p) == Min(preferred, LineEnd(s, p) - LineStart(s, p))
  }

  lemma {:induction false} LineOfAbove(s: seq<byte>, p: nat, preferred: nat)
    requires p <= |s| && LineStart(s, p) != 0
    ensures var up, start := Above(s, p, preferred), LineStart(s, p);
            LineStart(s, up) == LineStart(s, start - 1) && LineEnd(s, up) == start - 1
  {
    hide LineStart, LineEnd, IsLine;
    var start := LineStart(s, p);
    LineAround(s, p);
    LineBefore(s, start, LineEnd(s, p));
    SameLine(s, LineStart(s, start - 1), start - 1, Above(s, p, preferred));
  }

  lemma {:induction false} BelowAbove(s: seq<byte>, p: nat, preferred: nat)
    requires p <= |s| && LineStart(s, p) != 0
    ensures Below(s, Above(s, p, preferred), preferred)
            == LineStart(s, p) + Min(preferred, LineEnd(s, p) - LineStart(s, p))
  {
    hide LineStart, LineEnd, IsLine, Above;
    LineAround(s, p);
    LineOfAbove(s, p, preferred);
    SameLine(s, LineStart(s, p), LineEnd(s, p), LineStart(s, p));
  }

  /** Going up and back down restores the cursor exactly when it was settled. */
  lemma {:induction false} UpThenDown(s: seq<byte>, p: nat, preferred: nat)
    requires p <= |s| && LineStart(s, p) != 0
    ensures Below(s, Above(s, p, preferred), preferred) == p <==> Settled(s, p, preferred)
    ensures Settled(s, Above(s, p, preferred), preferred)
  {
    hide LineStart, LineEnd, Below;
    BelowAbove(s, p, preferred);
    LineOfAbove(s, p, preferred);
  }

  lemma {:induction false} LineOfBelow(s: seq<byte>, p: nat, preferred: nat)
    requires p <= |s| && LineEnd(s, p) != |s|
    ensures var down, end := Below(s, p, preferred), LineEnd(s, p);
            LineStart(s, down) == end + 1 && LineEnd(s, down) == LineEnd(s, end + 1)
  {
    hide LineStart, LineEnd, IsLine;
    var end := LineEnd(s, p);
    LineAround(s, p);
    LineAfter(s, LineStart(s, p), end);
    SameLine(s, end + 1, LineEnd(s, end + 1), Below(s, p, preferred));
  }

  /** Going down and back up restores the cursor exactly when it was settled. */
  lemma {:induction false} DownThenUp(s: seq<byte>, p: nat, preferred: nat)
    requires p <= |s| && LineEnd(s, p) != |s|
    ensures Above(s, Below(s, p, preferred), preferred) == p <==> Settled(s, p, preferred)
    ensures Settled(s, Below(s, p, preferred), preferred)
  {
    hide LineStart, LineEnd, IsLine;
    var start, end := LineStart(s, p), LineEnd(s, p);
    LineAround(s, p);
    LineAfter(s, start, end);
    SameLine(s, end + 1, LineEnd(s, end + 1), Below(s, p, preferred));
    SameLine(s, start, end, end);
  }
}
