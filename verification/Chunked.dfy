/**
 Chunked transfer decoding, decode_chunks of user/aarch64_browser.c, against the
 grammar of section 7.1 of RFC 9112.
 */
module Chunked {
  import opened Bytes

  const CAPACITY := 64 * 1024
  const MAX_LINE := 16
  const SIZE_MAX := 0xFFFF_FFFF_FFFF_FFFF
  const CRLF: seq<byte> := [13, 10]
  const SEMICOLON := 59

  function HexValue(b: byte): (r: Option<nat>)
    ensures r.Some? ==> r.value < 16
  {
    if 48 <= b <= 57 then Some(b - 48)
    else if 97 <= b <= 102 then Some(b - 97 + 10)
    else if 65 <= b <= 70 then Some(b - 65 + 10)
    else None
  }

  function Number(digits: seq<byte>): (r: Option<nat>) {
    if digits == [] then Some(0)
    else match (Number(digits[..|digits| - 1]), HexValue(digits[|digits| - 1]))
      case (Some(n), Some(d)) => Some(16 * n + d)
      case _ => None
  }

  /** Where the size ends and an extension begins. */
  function SizeEnd(line: seq<byte>, i: nat): (r: nat)
    requires i <= |line|
    ensures i <= r <= |line|
    decreases |line| - i
  {
    if i == |line| || line[i] == SEMICOLON then i else SizeEnd(line, i + 1)
  }

  function SizeOf(line: seq<byte>): Option<nat> {
    Number(line[..SizeEnd(line, 0)])
  }

  predicate CrlfAt(s: seq<byte>, i: nat) {
    i + 2 <= |s| && s[i] == 13 && s[i + 1] == 10
  }

  ghost predicate NoCrlf(s: seq<byte>) {
    forall i: nat :: !CrlfAt(s, i)
  }

  /** The first line break at or after `i`. */
  function Break(input: seq<byte>, i: nat): (r: Option<nat>)
    ensures r.Some? ==> i <= r.value && r.value + 2 <= |input|
    decreases |input| - i
  {
    if i + 2 > |input| then None
    else if CrlfAt(input, i) then Some(i)
    else Break(input, i + 1)
  }

  // The grammar.

  datatype Chunk = Chunk(line: seq<byte>, data: seq<byte>)

  /** A size line the browser takes: short, a hexadecimal size, perhaps an extension. */
  ghost predicate GoodLine(line: seq<byte>, size: nat) {
    0 < |line| <= MAX_LINE && SizeOf(line) == Some(size) && NoCrlf(line)
  }

  ghost predicate GoodChunks(chunks: seq<Chunk>) {
    forall k :: 0 <= k < |chunks| ==> chunks[k].data != [] && GoodLine(chunks[k].line, |chunks[k].data|)
  }

  /** Something, a line break, and what follows. */
  function Piece(a: seq<byte>, b: seq<byte>): (r: seq<byte>)
    ensures |r| == |a| + 2 + |b|
  {
    a + CRLF + b
  }

  /** Chunks, the last chunk's line, and whatever follows it. */
  function Encode(chunks: seq<Chunk>, last: seq<byte>, rest: seq<byte>): seq<byte> {
    if chunks == [] then Piece(last, rest)
    else Piece(chunks[0].line, Piece(chunks[0].data, Encode(chunks[1..], last, rest)))
  }

  function Body(chunks: seq<Chunk>): seq<byte> {
    if chunks == [] then [] else chunks[0].data + Body(chunks[1..])
  }

  // The decoder over values.

  function Decode(input: seq<byte>, room: nat): (r: Option<seq<byte>>)
    ensures r.Some? ==> |r.value| <= room
    decreases |input|
  {
    match Break(input, 0)
    case None => None
    case Some(line) =>
      if line == 0 || line > MAX_LINE then None
      else match SizeOf(input[..line])
        case None => None
        case Some(size) =>
          var rest := input[line + 2..];
          if size == 0 then Some([])
          else if size + 2 > |rest| || size > room || !CrlfAt(rest, size) then None
          else match Decode(rest[size + 2..], room - size)
            case None => None
            case Some(more) => Some(rest[..size] + more)
  }

  lemma {:induction false} BreakAfterLine(line: seq<byte>, tail: seq<byte>, i: nat)
    requires i <= |line| && NoCrlf(line)
    ensures Break(Piece(line, tail), i) == Some(|line|)
    decreases |line| - i
  {
    var input := Piece(line, tail);
    assert input[|line|] == 13 && input[|line| + 1] == 10;
    if i < |line| {
      assert !CrlfAt(line, i);
      assert input[i] == line[i] && (i + 1 < |line| ==> input[i + 1] == line[i + 1]);
      BreakAfterLine(line, tail, i + 1);
    }
  }

  lemma {:induction false} Split(a: seq<byte>, b: seq<byte>)
    ensures Piece(a, b)[..|a|] == a && Piece(a, b)[|a| + 2..] == b && CrlfAt(Piece(a, b), |a|)
  {
  }

  lemma {:induction false} Rejoin(s: seq<byte>, i: nat)
    requires CrlfAt(s, i)
    ensures s == Piece(s[..i], s[i + 2..])
  {
  }

  lemma {:induction false} DecodeLast(last: seq<byte>, rest: seq<byte>, room: nat)
    requires GoodLine(last, 0)
    ensures Decode(Piece(last, rest), room) == Some([])
  {
    hide SizeOf, Break, Piece;
    BreakAfterLine(last, rest, 0);
    Split(last, rest);
  }

  lemma {:induction false} DecodeChunk(c: Chunk, more: seq<byte>, room: nat)
    requires c.data != [] && GoodLine(c.line, |c.data|)
    ensures |c.data| > room ==> Decode(Piece(c.line, Piece(c.data, more)), room) == None
    ensures |c.data| <= room && Decode(more, room - |c.data|) == None ==> Decode(Piece(c.line, Piece(c.data, more)), room) == None
    ensures |c.data| <= room && Decode(more, room - |c.data|).Some? ==>
              Decode(Piece(c.line, Piece(c.data, more)), room) == Some(c.data + Decode(more, room - |c.data|).value)
  {
    hide SizeOf, Break, CrlfAt, Piece;
    BreakAfterLine(c.line, Piece(c.data, more), 0);
    Split(c.line, Piece(c.data, more));
    Split(c.data, more);
  }

  /** Every way of splitting a body into chunks decodes to that body, if there is room for it;
      a body without room is refused. */
  lemma {:induction false} DecodeEncode(chunks: seq<Chunk>, last: seq<byte>, rest: seq<byte>, room: nat)
    requires GoodChunks(chunks) && GoodLine(last, 0)
    ensures Decode(Encode(chunks, last, rest), room) == if |Body(chunks)| <= room then Some(Body(chunks)) else None
    decreases |chunks|
  {
    hide Decode, Piece, GoodLine;
    if chunks == [] {
      DecodeLast(last, rest, room);
    } else {
      var c := chunks[0];
      DecodeChunk(c, Encode(chunks[1..], last, rest), room);
      if |c.data| <= room {
        DecodeEncode(chunks[1..], last, rest, room - |c.data|);
      }
    }
  }

  lemma {:induction false} BreakFirst(input: seq<byte>, i: nat)
    requires Break(input, i).Some?
    ensures CrlfAt(input, Break(input, i).value)
    ensures forall k: nat :: i <= k < Break(input, i).value ==> !CrlfAt(input, k)
    decreases |input| - i
  {
    if !CrlfAt(input, i) {
      BreakFirst(input, i + 1);
    }
  }

  lemma {:induction false} LineIsGood(input: seq<byte>, size: nat)
    requires Break(input, 0).Some?
    requires var line := Break(input, 0).value; 0 < line <= MAX_LINE && SizeOf(input[..line]) == Some(size)
    ensures var line := Break(input, 0).value;
            GoodLine(input[..line], size) && input == Piece(input[..line], input[line + 2..])
  {
    hide Break, SizeOf;
    BreakFirst(input, 0);
    var at := Break(input, 0).value;
    forall i: nat ensures !CrlfAt(input[..at], i) {
      assert i < at ==> !CrlfAt(input, i);
    }
  }

  /** Every accepted input is a sequence of chunks whose data is the output. */
  lemma {:induction false} DecodeParses(input: seq<byte>, room: nat) returns (chunks: seq<Chunk>, last: seq<byte>, rest: seq<byte>)
    requires Decode(input, room).Some?
    ensures GoodChunks(chunks) && GoodLine(last, 0)
    ensures input == Encode(chunks, last, rest) && Decode(input, room) == Some(Body(chunks))
    decreases |input|
  {
    hide SizeOf, Break, GoodLine, Piece;
    var at := Break(input, 0).value;
    var size, tail := SizeOf(input[..at]).value, input[at + 2..];
    LineIsGood(input, size);
    if size == 0 {
      chunks, last, rest := [], input[..at], tail;
    } else {
      chunks, last, rest := DecodeParses(tail[size + 2..], room - size);
      var first := Chunk(input[..at], tail[..size]);
      Rejoin(tail, size);
      assert ([first] + chunks)[1..] == chunks;
      chunks := [first] + chunks;
    }
  }

  /** A size line with a digit in it, as the RFC demands of every one. */
  ghost predicate HasDigits(line: seq<byte>) {
    0 < SizeEnd(line, 0)
  }

  /** Only the last size line can lack its digits. */
  lemma {:induction false} DigitsInChunks(chunks: seq<Chunk>)
    requires GoodChunks(chunks)
    ensures forall k :: 0 <= k < |chunks| ==> HasDigits(chunks[k].line)
  {
    forall k | 0 <= k < |chunks| ensures HasDigits(chunks[k].line) {
      assert GoodLine(chunks[k].line, |chunks[k].data|);
      assert Number([]) == Some(0);
    }
  }

  // The loop.

  /** Sixteen digits always fit in 64 bits, so the overflow guard never refuses a line. */
  lemma {:induction false} NumberBound(digits: seq<byte>)
    requires Number(digits).Some?
    ensures Number(digits).value < Pow16(|digits|)
  {
    if digits != [] {
      NumberBound(digits[..|digits| - 1]);
    }
  }

  function Pow16(n: nat): (r: nat)
    ensures 0 < r
  {
    if n == 0 then 1 else 16 * Pow16(n - 1)
  }

  lemma {:induction false} Pow16Bound(n: nat)
    requires n <= MAX_LINE
    ensures Pow16(n) <= SIZE_MAX + 1
    decreases MAX_LINE - n
  {
    if n < MAX_LINE {
      Pow16Bound(n + 1);
    } else {
      assert Pow16(16) == 0x1_0000_0000_0000_0000 by {
        assert Pow16(4) == 0x1_0000;
        assert Pow16(8) == 0x1_0000_0000;
        assert Pow16(12) == 0x1_0000_0000_0000;
      }
    }
  }

  lemma {:induction false} NumberPrefix(digits: seq<byte>, k: nat)
    requires Number(digits).Some? && k <= |digits|
    ensures Number(digits[..k]).Some?
    decreases |digits|
  {
    if k < |digits| {
      var rest := digits[..|digits| - 1];
      assert rest[..k] == digits[..k];
      NumberPrefix(rest, k);
    } else {
      assert digits[..k] == digits;
    }
  }

  lemma {:induction false} SizeEndScan(line: seq<byte>, i: nat)
    requires i <= |line| && forall k :: 0 <= k < i ==> line[k] != SEMICOLON
    ensures SizeEnd(line, 0) == SizeEnd(line, i)
    decreases i
  {
    if i > 0 {
      SizeEndScan(line, i - 1);
    }
  }

  method ReadSize(line: seq<byte>) returns (r: Option<nat>)
    requires |line| <= MAX_LINE
    ensures r == SizeOf(line)
  {
    var size, index := 0, 0;
    while index < |line| && line[index] != SEMICOLON
      invariant index <= |line| && forall k :: 0 <= k < index ==> line[k] != SEMICOLON
      invariant Number(line[..index]) == Some(size)
    {
      assert line[..index + 1][..index] == line[..index];
      SizeEndScan(line, index);
      ghost var digits := line[..SizeEnd(line, 0)];
      assert digits[..index + 1] == line[..index + 1];
      var digit := HexValue(line[index]);
      if digit.None? {
        if Number(digits).Some? {
          NumberPrefix(digits, index + 1);
        }
        return None;
      }
      // The source refuses a size above (SIZE_MAX - digit) / 16 here.
      assert size <= (SIZE_MAX - digit.value) / 16 by {
        NumberBound(line[..index]);
        Pow16Bound(index + 1);
      }
      size := size * 16 + digit.value;
      index := index + 1;
    }
    SizeEndScan(line, index);
    return Some(size);
  }

  method FindBreak(input: seq<byte>, source: nat) returns (r: Option<nat>)
    requires source <= |input|
    ensures r == Break(input[source..], 0)
  {
    ghost var view := input[source..];
    var index := 0;
    while index + 2 <= |input| - source
      invariant index <= |view| && Break(view, index) == Break(view, 0)
    {
      if CrlfAt(input, source + index) {
        assert CrlfAt(view, index);
        return Some(index);
      }
      assert !CrlfAt(view, index);
      index := index + 1;
    }
    return None;
  }

  /** The next chunk of what is left to decode. */
  ghost predicate NextChunk(view: seq<byte>, room: nat, line: nat, size: nat) {
    && Break(view, 0) == Some(line)
    && 0 < line <= MAX_LINE
    && SizeOf(view[..line]) == Some(size)
    && 0 < size <= room
    && line + 2 + size + 2 <= |view|
    && CrlfAt(view, line + 2 + size)
  }

  lemma {:induction false} DecodeNext(view: seq<byte>, room: nat, line: nat, size: nat)
    requires NextChunk(view, room, line, size)
    ensures var more := Decode(view[line + 2 + size + 2..], room - size);
            Decode(view, room) == if more.Some? then Some(view[line + 2..line + 2 + size] + more.value) else None
  {
    hide Break, SizeOf;
    var rest := view[line + 2..];
    assert rest[..size] == view[line + 2..line + 2 + size] && rest[size + 2..] == view[line + 2 + size + 2..];
    assert CrlfAt(rest, size);
  }

  lemma {:induction false} DecodeStops(view: seq<byte>, room: nat)
    requires forall line, size :: !NextChunk(view, room, line, size)
    ensures Decode(view, room) ==
            if Break(view, 0).Some? && 0 < Break(view, 0).value <= MAX_LINE && SizeOf(view[..Break(view, 0).value]) == Some(0)
            then Some([]) else None
  {
    hide SizeOf;
    if Break(view, 0).Some? && 0 < Break(view, 0).value <= MAX_LINE && SizeOf(view[..Break(view, 0).value]).Some? {
      var line := Break(view, 0).value;
      var size := SizeOf(view[..line]).value;
      assert !NextChunk(view, room, line, size);
    }
  }

  /** decode_chunks into its fixed buffer: it decodes what `Decode` does, in place, and leaves the
      buffer behind the result alone. */
  method DecodeChunks(input: seq<byte>, buffer: array<byte>) returns (r: Option<nat>)
    requires buffer.Length == CAPACITY
    modifies buffer
    ensures r.Some? <==> Decode(input, CAPACITY).Some?
    ensures r.Some? ==> r.value <= CAPACITY && buffer[..r.value] == Decode(input, CAPACITY).value
    ensures r.Some? ==> buffer[r.value..] == old(buffer[r.value..])
  {
    hide Decode, Break, SizeOf;
    var source, destination := 0, 0;
    ghost var done: seq<byte> := [];
    assert input[0..] == input;
    JoinedStart(Decode(input, CAPACITY));
    while source < |input|
      invariant source <= |input| && destination <= CAPACITY
      invariant |done| == destination && buffer[..destination] == done
      invariant buffer[destination..] == old(buffer[destination..])
      invariant Joined(Decode(input, CAPACITY), done, Decode(input[source..], CAPACITY - destination))
    {
      ghost var view, room := input[source..], CAPACITY - destination;
      var line := FindBreak(input, source);
      if line.None? || line.value == 0 || line.value > MAX_LINE {
        DecodeStops(view, room);
        return None;
      }
      var n := line.value;
      assert input[source..source + n] == view[..n];
      var size := ReadSize(input[source..source + n]);
      if size.None? {
        DecodeStops(view, room);
        return None;
      }
      var chunk := size.value;
      if chunk == 0 {
        DecodeStops(view, room);
        return Some(destination);
      }
      source := source + n + 2;
      if chunk > |input| - source || destination + chunk > CAPACITY || source + chunk + 2 > |input| || !CrlfAt(input, source + chunk) {
        DecodeStops(view, room);
        return None;
      }
      assert NextChunk(view, room, n, chunk);
      DecodeNext(view, room, n, chunk);
      JoinedNext(Decode(input, CAPACITY), done, view[n + 2..n + 2 + chunk], Decode(view[n + 2 + chunk + 2..], room - chunk));
      var data := input[source..source + chunk];
      assert view[n + 2..n + 2 + chunk] == data && view[n + 2 + chunk + 2..] == input[source + chunk + 2..];
      CopyChunk(buffer, destination, data);
      done := done + data;
      destination, source := destination + chunk, source + chunk + 2;
    }
    assert input[source..] == [];
    DecodeNothing(CAPACITY - destination);
    return None;
  }

  /** What is decoded in all is what is done and what is to come. */
  ghost predicate Joined(all: Option<seq<byte>>, done: seq<byte>, more: Option<seq<byte>>) {
    all == if more.Some? then Some(done + more.value) else None
  }

  lemma {:induction false} JoinedStart(all: Option<seq<byte>>)
    ensures Joined(all, [], all)
  {
    assert all.Some? ==> [] + all.value == all.value;
  }

  lemma {:induction false} JoinedNext(all: Option<seq<byte>>, done: seq<byte>, data: seq<byte>, more: Option<seq<byte>>)
    requires Joined(all, done, if more.Some? then Some(data + more.value) else None)
    ensures Joined(all, done + data, more)
  {
    assert more.Some? ==> done + (data + more.value) == (done + data) + more.value;
  }

  lemma {:induction false} DecodeNothing(room: nat)
    ensures Decode([], room) == None
  {
  }

  method CopyChunk(buffer: array<byte>, destination: nat, data: seq<byte>)
    requires destination + |data| <= buffer.Length
    modifies buffer
    ensures buffer[..destination + |data|] == old(buffer[..destination]) + data
    ensures buffer[destination + |data|..] == old(buffer[destination + |data|..])
  {
    Blit(buffer, destination, data);
    assert buffer[..][..destination + |data|] == buffer[..destination + |data|];
    assert buffer[..][destination + |data|..] == buffer[destination + |data|..];
  }
}
