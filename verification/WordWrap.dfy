/**
 wrap_document of user/aarch64_browser.c: a page's text cut into display lines.
 */
module WordWrap {
  import opened Bytes

  const DOCUMENT_CAPACITY := 32 * 1024
  const MAX_LINES := 1024
  const NEWLINE := 10
  const SPACE := 32

  datatype Line = Line(offset: nat, length: nat)
  {
    function End(): nat { offset + length }
  }

  /** A nonempty stretch of one source line, no longer than the window is wide. */
  ghost predicate Fits(text: seq<byte>, columns: nat, line: Line) {
    && 0 < line.length <= columns
    && line.End() <= |text|
    && forall i :: line.offset <= i < line.End() ==> text[i] != NEWLINE
  }

  /** A line ends with its source line. If that goes on past the window, the line ends at the last
      space that fits, or is a full row of a word too long for one. */
  ghost predicate EndsWell(text: seq<byte>, columns: nat, line: Line)
    requires line.End() <= |text|
  {
    || line.End() == |text| || text[line.End()] == NEWLINE
    || (&& line.offset + columns < |text|
        && line.length <= columns
        && (forall i :: line.offset <= i <= line.offset + columns ==> text[i] != NEWLINE)
        && (forall i :: line.End() < i <= line.offset + columns ==> text[i] != SPACE)
        && (text[line.End()] != SPACE ==>
              line.length == columns && forall i :: line.offset < i <= line.End() ==> text[i] != SPACE))
  }

  /** A line that does not begin its source line does not begin with a space. */
  ghost predicate StartsWell(text: seq<byte>, start: nat) {
    0 < start < |text| && text[start] == SPACE ==> text[start - 1] == NEWLINE
  }

  ghost predicate Ordered(lines: seq<Line>) {
    forall j, k :: 0 <= j < k < |lines| ==> lines[j].End() <= lines[k].offset
  }

  ghost predicate Shown(lines: seq<Line>, i: nat) {
    exists k :: 0 <= k < |lines| && lines[k].offset <= i < lines[k].End()
  }

  /** Nothing but spaces and newlines is left out of the first `upTo` bytes. */
  ghost predicate NothingLost(text: seq<byte>, lines: seq<Line>, upTo: nat)
    requires upTo <= |text|
  {
    forall i :: 0 <= i < upTo && text[i] != SPACE && text[i] != NEWLINE ==> Shown(lines, i)
  }

  ghost predicate Wrapped(text: seq<byte>, columns: nat, lines: seq<Line>, start: nat) {
    && start <= |text|
    && (forall k :: 0 <= k < |lines| ==> Fits(text, columns, lines[k]) && EndsWell(text, columns, lines[k]) && lines[k].End() <= start)
    && Ordered(lines)
    && NothingLost(text, lines, start)
    && StartsWell(text, start) && forall k :: 0 <= k < |lines| ==> StartsWell(text, lines[k].offset)
  }

  lemma {:induction false} WrappedNext(text: seq<byte>, columns: nat, lines: seq<Line>, start: nat, line: Line, next: nat)
    requires Wrapped(text, columns, lines, start)
    requires start <= line.offset && Fits(text, columns, line) && EndsWell(text, columns, line)
    requires line.End() <= next <= |text|
    requires forall i :: start <= i < line.offset ==> text[i] == NEWLINE
    requires forall i :: line.End() <= i < next ==> text[i] == SPACE || text[i] == NEWLINE
    requires StartsWell(text, next)
    ensures Wrapped(text, columns, lines + [line], next)
  {
    hide Fits, EndsWell;
    var more := lines + [line];
    forall i | 0 <= i < next && text[i] != SPACE && text[i] != NEWLINE ensures Shown(more, i) {
      if i < start {
        var k :| 0 <= k < |lines| && lines[k].offset <= i < lines[k].End();
        assert more[k] == lines[k];
      } else {
        assert more[|lines|] == line;
      }
    }
  }

  lemma {:induction false} WrappedSkip(text: seq<byte>, columns: nat, lines: seq<Line>, start: nat, next: nat)
    requires Wrapped(text, columns, lines, start) && start <= next <= |text|
    requires forall i :: start <= i < next ==> text[i] == NEWLINE
    ensures Wrapped(text, columns, lines, next)
  {
    hide Fits, EndsWell, Shown;
  }

  class Document {
    const text: array<byte>
    var length: nat
    const lineOffsets: array<nat>
    const lineLengths: array<nat>
    var lineCount: nat

    ghost predicate Valid()
      reads this
    {
      && text.Length == DOCUMENT_CAPACITY && length < DOCUMENT_CAPACITY
      && lineOffsets.Length == MAX_LINES && lineLengths.Length == MAX_LINES && lineOffsets != lineLengths
      && lineCount <= MAX_LINES
    }

    ghost function Text(): seq<byte>
      requires Valid()
      reads this, text
    {
      text[..length]
    }

    ghost function Lines(): (r: seq<Line>)
      requires Valid()
      reads this, lineOffsets, lineLengths
      ensures |r| == lineCount
    {
      seq(lineCount, k requires 0 <= k < lineCount reads this, lineOffsets, lineLengths
                     requires Valid() => Line(lineOffsets[k], lineLengths[k]))
    }

    constructor ()
      ensures Valid() && length == lineCount == 0
    {
      text := new byte[DOCUMENT_CAPACITY](_ => 0);
      lineOffsets := new nat[MAX_LINES](_ => 0);
      lineLengths := new nat[MAX_LINES](_ => 0);
      length, lineCount := 0, 0;
    }

    method SkipNewlines(start: nat) returns (r: nat)
      requires Valid() && start <= length
      ensures start <= r <= length
      ensures forall i :: start <= i < r ==> text[i] == NEWLINE
      ensures r < length ==> text[r] != NEWLINE
    {
      r := start;
      while r < length && text[r] == NEWLINE
        invariant start <= r <= length && forall i :: start <= i < r ==> text[i] == NEWLINE
      {
        r := r + 1;
      }
    }

    /** The end of the source line at `start`, and of the display line cut from it. */
    method Cut(start: nat, columns: nat) returns (hardEnd: nat, end: nat)
      requires Valid() && start < length && text[start] != NEWLINE && 0 < columns
      ensures start < end <= hardEnd <= length && (hardEnd == length || text[hardEnd] == NEWLINE)
      ensures Fits(Text(), columns, Line(start, end - start)) && EndsWell(Text(), columns, Line(start, end - start))
    {
      hardEnd := start;
      while hardEnd < length && text[hardEnd] != NEWLINE
        invariant start <= hardEnd <= length && forall i :: start <= i < hardEnd ==> text[i] != NEWLINE
      {
        hardEnd := hardEnd + 1;
      }
      end := if hardEnd < start + columns then hardEnd else start + columns;
      if end < hardEnd {
        var split := end;
        while split > start && text[split] != SPACE
          invariant start <= split <= end && forall i :: split < i <= end ==> text[i] != SPACE
        {
          split := split - 1;
        }
        if split > start {
          end := split;
        }
      }
    }

    /** Spaces after a line, and the newline that ends its source line. */
    method SkipBlank(end: nat, hardEnd: nat) returns (r: nat)
      requires Valid() && end <= hardEnd <= length && (hardEnd == length || text[hardEnd] == NEWLINE)
      ensures end <= r <= length
      ensures forall i :: end <= i < r ==> text[i] == SPACE || text[i] == NEWLINE
      ensures StartsWell(Text(), r)
    {
      r := end;
      while r < hardEnd && text[r] == SPACE
        invariant end <= r <= hardEnd && forall i :: end <= i < r ==> text[i] == SPACE
      {
        r := r + 1;
      }
      if r == hardEnd && r < length && text[r] == NEWLINE {
        r := r + 1;
      }
    }

    method Append(line: Line)
      requires Valid() && lineCount < MAX_LINES
      modifies `lineCount, lineOffsets, lineLengths
      ensures Valid() && lineCount == old(lineCount) + 1
      ensures Lines() == old(Lines()) + [line]
    {
      lineOffsets[lineCount] := line.offset;
      lineLengths[lineCount] := line.length;
      lineCount := lineCount + 1;
    }

    /** For every document and width the lines come out in order and apart, none wider than the
        window (of at least eight columns), none holding a newline, and words are broken only when
        they are too long. Below the limit of 1024 lines only spaces and newlines are dropped. The
        sixteen bits a length is stored in are enough. */
    method Wrap(width: nat) returns (ghost upTo: nat)
      requires Valid()
      modifies `lineCount, lineOffsets, lineLengths
      ensures Valid() && Text() == old(Text())
      ensures Wrapped(Text(), if width < 8 then 8 else width, Lines(), upTo)
      ensures lineCount < MAX_LINES ==> upTo == length
      ensures forall k :: 0 <= k < lineCount ==> Lines()[k].length < 0x1_0000
    {
      hide EndsWell;
      var columns := if width < 8 then 8 else width;
      lineCount := 0;
      var start := 0;
      ghost var s := Text();
      while start < length && lineCount < MAX_LINES
        invariant Valid() && start <= length && Text() == s
        invariant Wrapped(s, columns, Lines(), start)
        decreases length - start
      {
        var first := SkipNewlines(start);
        if first == length {
          WrappedSkip(s, columns, Lines(), start, first);
          start := first;
          break;
        }
        var hardEnd, end := Cut(first, columns);
        var next := SkipBlank(end, hardEnd);
        WrappedNext(s, columns, Lines(), start, Line(first, end - first), next);
        Append(Line(first, end - first));
        start := next;
      }
      upTo := start;
      assert forall k :: 0 <= k < lineCount ==> Fits(s, columns, Lines()[k]);
    }
  }
}
