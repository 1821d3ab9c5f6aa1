/**
 The chunked body of section 7.1 of RFC 9112, with its extensions and trailer section, against
 what the browser's decoder accepts.
 */
module ChunkedRfc {
  import opened Bytes
  import opened Chunked

  const QUOTE := 34
  const COLON := 58
  const EQUALS := 61
  const BACKSLASH := 92

  predicate Blank(b: byte) {
    b == 9 || b == 32
  }

  predicate Blanks(s: seq<byte>) {
    forall i :: 0 <= i < |s| ==> Blank(s[i])
  }

  /** A character of a token (section 5.6.2 of RFC 9110). */
  predicate TokenChar(b: byte) {
    || 48 <= b <= 57 || 65 <= b <= 90 || 97 <= b <= 122
    || b == 33 || 35 <= b <= 39 || b == 42 || b == 43 || b == 45 || b == 46 || 94 <= b <= 96 || b == 124 || b == 126
  }

  predicate Token(s: seq<byte>) {
    s != [] && forall i :: 0 <= i < |s| ==> TokenChar(s[i])
  }

  /** A visible character, a blank, or a byte beyond ASCII. */
  predicate TextChar(b: byte) {
    Blank(b) || 33 <= b <= 126 || 128 <= b
  }

  /** Text and its closing quote, a backslash before quotes and backslashes. */
  predicate QuotedRest(s: seq<byte>)
    decreases |s|
  {
    if s == [] then false
    else if s[0] == QUOTE then |s| == 1
    else if s[0] == BACKSLASH then 1 < |s| && TextChar(s[1]) && QuotedRest(s[2..])
    else TextChar(s[0]) && QuotedRest(s[1..])
  }

  predicate Quoted(s: seq<byte>) {
    s != [] && s[0] == QUOTE && QuotedRest(s[1..])
  }

  ghost predicate PaddedValue(s: seq<byte>) {
    exists i :: 0 <= i <= |s| && Blanks(s[..i]) && (Token(s[i..]) || Quoted(s[i..]))
  }

  /** An equals sign, blanks around it, and a value. */
  ghost predicate ExtensionValue(s: seq<byte>) {
    exists i :: 0 <= i < |s| && Blanks(s[..i]) && s[i] == EQUALS && PaddedValue(s[i + 1..])
  }

  /** A name and perhaps a value. */
  ghost predicate Named(s: seq<byte>) {
    exists i :: 0 <= i <= |s| && Token(s[..i]) && (i == |s| || ExtensionValue(s[i..]))
  }

  ghost predicate PaddedName(s: seq<byte>) {
    exists i :: 0 <= i <= |s| && Blanks(s[..i]) && Named(s[i..])
  }

  /** A semicolon, blanks around it, a name and perhaps a value. */
  ghost predicate ExtensionItem(s: seq<byte>) {
    exists i :: 0 <= i < |s| && Blanks(s[..i]) && s[i] == SEMICOLON && PaddedName(s[i + 1..])
  }

  ghost predicate Extension(s: seq<byte>)
    decreases |s|
  {
    s == [] || exists k: nat :: 0 < k <= |s| && ExtensionItem(s[..k]) && Extension(s[k..])
  }

  /** A size line: hexadecimal digits and an extension. */
  ghost predicate RfcLine(line: seq<byte>, size: nat) {
    exists k: nat :: 0 < k <= |line| && Number(line[..k]) == Some(size) && Extension(line[k..])
  }

  ghost predicate RfcChunks(chunks: seq<Chunk>) {
    forall k :: 0 <= k < |chunks| ==> chunks[k].data != [] && RfcLine(chunks[k].line, |chunks[k].data|)
  }

  /** A name, a colon, and a value with blanks around it. */
  predicate FieldLine(s: seq<byte>) {
    exists i :: 0 <= i < |s| && s[i] == COLON && Token(s[..i]) && forall k :: i < k < |s| ==> TextChar(s[k])
  }

  /** Trailer fields and the line break that ends the body. */
  ghost predicate Trailer(s: seq<byte>)
    decreases |s|
  {
    s == CRLF || exists k: nat :: CrlfAt(s, k) && FieldLine(s[..k]) && Trailer(s[k + 2..])
  }

  /** The input is one chunked body as the RFC has it. */
  ghost predicate Conforms(input: seq<byte>) {
    exists chunks: seq<Chunk>, last: seq<byte>, rest: seq<byte> :: ConformsAs(input, chunks, last, rest)
  }

  ghost predicate ConformsAs(input: seq<byte>, chunks: seq<Chunk>, last: seq<byte>, rest: seq<byte>) {
    input == Encode(chunks, last, rest) && RfcChunks(chunks) && RfcLine(last, 0) && Trailer(rest)
  }

  // No line break inside a size line.

  ghost predicate NoReturn(s: seq<byte>) {
    forall i :: 0 <= i < |s| ==> s[i] != 13
  }

  lemma {:induction false} NoReturnJoin(s: seq<byte>, k: nat)
    requires k <= |s| && NoReturn(s[..k]) && NoReturn(s[k..])
    ensures NoReturn(s)
  {
    forall i | 0 <= i < |s| ensures s[i] != 13 {
      assert if i < k then s[..k][i] == s[i] else s[k..][i - k] == s[i];
    }
  }

  lemma {:induction false} QuotedNoReturn(s: seq<byte>)
    requires QuotedRest(s)
    ensures NoReturn(s)
    decreases |s|
  {
    if s[0] == BACKSLASH {
      QuotedNoReturn(s[2..]);
      NoReturnJoin(s, 2);
    } else if s[0] != QUOTE {
      QuotedNoReturn(s[1..]);
      NoReturnJoin(s, 1);
    }
  }

  lemma {:induction false} NoReturnAround(s: seq<byte>, i: nat)
    requires i < |s| && Blanks(s[..i]) && s[i] != 13 && NoReturn(s[i + 1..])
    ensures NoReturn(s)
  {
    assert s[i..][1..] == s[i + 1..];
    NoReturnJoin(s[i..], 1);
    NoReturnJoin(s, i);
  }

  lemma {:induction false} ValueNoReturn(s: seq<byte>)
    requires ExtensionValue(s)
    ensures NoReturn(s)
  {
    hide PaddedValue;
    var i :| 0 <= i < |s| && Blanks(s[..i]) && s[i] == EQUALS && PaddedValue(s[i + 1..]);
    PaddedNoReturn(s[i + 1..]);
    NoReturnAround(s, i);
  }

  lemma {:induction false} PaddedNoReturn(s: seq<byte>)
    requires PaddedValue(s)
    ensures NoReturn(s)
  {
    hide QuotedRest;
    var i :| 0 <= i <= |s| && Blanks(s[..i]) && (Token(s[i..]) || Quoted(s[i..]));
    var value := s[i..];
    if Quoted(value) {
      QuotedNoReturn(value[1..]);
      NoReturnJoin(value, 1);
    }
    NoReturnJoin(s, i);
  }

  lemma {:induction false} NamedNoReturn(s: seq<byte>)
    requires Named(s)
    ensures NoReturn(s)
  {
    hide ExtensionValue;
    var i :| 0 <= i <= |s| && Token(s[..i]) && (i == |s| || ExtensionValue(s[i..]));
    if i < |s| {
      ValueNoReturn(s[i..]);
    }
    NoReturnJoin(s, i);
  }

  lemma {:induction false} PaddedNameNoReturn(s: seq<byte>)
    requires PaddedName(s)
    ensures NoReturn(s)
  {
    hide Named;
    var i :| 0 <= i <= |s| && Blanks(s[..i]) && Named(s[i..]);
    NamedNoReturn(s[i..]);
    NoReturnJoin(s, i);
  }

  lemma {:induction false} ItemNoReturn(s: seq<byte>)
    requires ExtensionItem(s)
    ensures NoReturn(s) && s != [] && (Blank(s[0]) || s[0] == SEMICOLON)
  {
    hide PaddedName;
    var i :| 0 <= i < |s| && Blanks(s[..i]) && s[i] == SEMICOLON && PaddedName(s[i + 1..]);
    PaddedNameNoReturn(s[i + 1..]);
    NoReturnAround(s, i);
    assert i > 0 ==> s[..i][0] == s[0];
  }

  lemma {:induction false} ExtensionNoReturn(s: seq<byte>)
    requires Extension(s)
    ensures NoReturn(s) && (s != [] ==> Blank(s[0]) || s[0] == SEMICOLON)
    decreases |s|
  {
    hide ExtensionItem;
    if s != [] {
      var k: nat :| 0 < k <= |s| && ExtensionItem(s[..k]) && Extension(s[k..]);
      ItemNoReturn(s[..k]);
      ExtensionNoReturn(s[k..]);
      NoReturnJoin(s, k);
    }
  }

  lemma {:induction false} DigitsAreHex(digits: seq<byte>, i: nat)
    requires Number(digits).Some? && i < |digits|
    ensures HexValue(digits[i]).Some?
    decreases |digits|
  {
    if i < |digits| - 1 {
      DigitsAreHex(digits[..|digits| - 1], i);
    }
  }

  lemma {:induction false} RfcLineNoCrlf(line: seq<byte>, size: nat)
    requires RfcLine(line, size)
    ensures NoCrlf(line)
  {
    hide Extension, Number;
    var k: nat :| 0 < k <= |line| && Number(line[..k]) == Some(size) && Extension(line[k..]);
    ExtensionNoReturn(line[k..]);
    forall i | 0 <= i < k ensures line[..k][i] != 13 {
      DigitsAreHex(line[..k], i);
    }
    NoReturnJoin(line, k);
  }

  // The digits of a size line.

  ghost function ExtensionOf(line: seq<byte>): seq<byte> {
    line[SizeEnd(line, 0)..]
  }

  lemma {:induction false} SizeEndFirst(line: seq<byte>, i: nat)
    requires i <= |line|
    ensures var e := SizeEnd(line, i); (e == |line| || line[e] == SEMICOLON) && forall k :: i <= k < e ==> line[k] != SEMICOLON
    decreases |line| - i
  {
    if i < |line| && line[i] != SEMICOLON {
      SizeEndFirst(line, i + 1);
    }
  }

  /** Digits end where the decoder ends them, unless a blank stands before the extension. */
  lemma {:induction false} DigitsEnd(line: seq<byte>, size: nat, k: nat)
    requires 0 < k <= |line| && Number(line[..k]) == Some(size) && Extension(line[k..])
    ensures k <= SizeEnd(line, 0)
    ensures k < SizeEnd(line, 0) ==> Blank(line[k])
  {
    hide Number, Extension, SizeEnd;
    var e := SizeEnd(line, 0);
    SizeEndFirst(line, 0);
    if e < k {
      DigitsAreHex(line[..k], e);
    }
    ExtensionNoReturn(line[k..]);
    assert k < |line| ==> line[k..][0] == line[k];
  }

  /** A conforming size line is taken exactly if it is short and has no blank before its extension. */
  lemma {:induction false} TakenLine(line: seq<byte>, size: nat)
    requires RfcLine(line, size)
    ensures GoodLine(line, size) <==> |line| <= MAX_LINE && forall i :: 0 <= i < SizeEnd(line, 0) ==> !Blank(line[i])
  {
    hide Extension, Number, SizeEnd, NoCrlf;
    var k: nat :| 0 < k <= |line| && Number(line[..k]) == Some(size) && Extension(line[k..]);
    RfcLineNoCrlf(line, size);
    DigitsEnd(line, size, k);
    if SizeOf(line).Some? {
      forall i | 0 <= i < SizeEnd(line, 0) ensures !Blank(line[i]) {
        DigitsAreHex(line[..SizeEnd(line, 0)], i);
      }
    }
  }

  /** A size line the decoder takes conforms exactly if it has a digit and a proper extension. */
  lemma {:induction false} ConformingLine(line: seq<byte>, size: nat, n: nat)
    requires GoodLine(line, size)
    ensures RfcLine(line, n) <==> n == size && HasDigits(line) && Extension(ExtensionOf(line))
  {
    hide Extension, Number, SizeEnd, NoCrlf;
    var e := SizeEnd(line, 0);
    if RfcLine(line, n) {
      var k: nat :| 0 < k <= |line| && Number(line[..k]) == Some(n) && Extension(line[k..]);
      DigitsEnd(line, n, k);
      if k < e {
        DigitsAreHex(line[..e], k);
      }
    }
  }

  // An input is read in one way only.

  lemma {:induction false} SameLine(a: seq<byte>, tail: seq<byte>, b: seq<byte>, other: seq<byte>)
    requires NoCrlf(a) && NoCrlf(b) && Piece(a, tail) == Piece(b, other)
    ensures a == b && tail == other
  {
    hide Break, Piece, NoCrlf;
    BreakAfterLine(a, tail, 0);
    BreakAfterLine(b, other, 0);
    Split(a, tail);
    Split(b, other);
  }

  lemma {:induction false} ReadOnce(a: seq<Chunk>, last: seq<byte>, rest: seq<byte>, b: seq<Chunk>, last': seq<byte>, rest': seq<byte>)
    requires GoodChunks(a) && GoodLine(last, 0) && RfcChunks(b) && RfcLine(last', 0)
    requires Encode(a, last, rest) == Encode(b, last', rest')
    ensures a == b && last == last' && rest == rest'
    decreases |a|
  {
    hide Piece, RfcLine, SizeOf, HasDigits, ExtensionOf, Extension;
    var line, tail := if a == [] then last else a[0].line, if a == [] then rest else Piece(a[0].data, Encode(a[1..], last, rest));
    var line', tail' := if b == [] then last' else b[0].line, if b == [] then rest' else Piece(b[0].data, Encode(b[1..], last', rest'));
    var size, size' := if a == [] then 0 else |a[0].data|, if b == [] then 0 else |b[0].data|;
    assert GoodLine(line, size) && RfcLine(line', size');
    RfcLineNoCrlf(line', size');
    SameLine(line, tail, line', tail');
    ConformingLine(line, size, size');
    if a != [] {
      Split(a[0].data, Encode(a[1..], last, rest));
      Split(b[0].data, Encode(b[1..], last', rest'));
      ReadOnce(a[1..], last, rest, b[1..], last', rest');
      assert a == [a[0]] + a[1..] && b == [b[0]] + b[1..];
    }
  }

  ghost predicate ProperExtensions(chunks: seq<Chunk>) {
    forall k :: 0 <= k < |chunks| ==> Extension(ExtensionOf(chunks[k].line))
  }

  /** An accepted input conforms to the RFC exactly if its last size line has a digit, every size
      line a proper extension or none, and the last one is followed by a trailer section and the
      closing line break. The decoder looks at none of these. */
  lemma {:induction false} ConformsExactly(chunks: seq<Chunk>, last: seq<byte>, rest: seq<byte>)
    requires GoodChunks(chunks) && GoodLine(last, 0)
    ensures Conforms(Encode(chunks, last, rest)) <==>
              HasDigits(last) && Extension(ExtensionOf(last)) && ProperExtensions(chunks) && Trailer(rest)
  {
    hide GoodLine, RfcLine, HasDigits, ExtensionOf, Extension, Trailer;
    var input := Encode(chunks, last, rest);
    ConformingLine(last, 0, 0);
    DigitsInChunks(chunks);
    forall k | 0 <= k < |chunks|
      ensures RfcLine(chunks[k].line, |chunks[k].data|) <==> Extension(ExtensionOf(chunks[k].line))
    {
      ConformingLine(chunks[k].line, |chunks[k].data|, |chunks[k].data|);
    }
    if Conforms(input) {
      var b, last', rest' :| ConformsAs(input, b, last', rest');
      ReadOnce(chunks, last, rest, b, last', rest');
    } else {
      assert !ConformsAs(input, chunks, last, rest);
    }
  }

  /** A conforming body is accepted exactly if there is room for it and every size line is taken;
      by `TakenLine`, if every size line is short and has no blank before its extension. */
  lemma {:induction false} AcceptsExactly(chunks: seq<Chunk>, last: seq<byte>, rest: seq<byte>, room: nat)
    requires RfcChunks(chunks) && RfcLine(last, 0)
    ensures Decode(Encode(chunks, last, rest), room).Some? <==>
              GoodChunks(chunks) && GoodLine(last, 0) && |Body(chunks)| <= room
  {
    hide GoodLine, RfcLine, Decode, Encode;
    if GoodChunks(chunks) && GoodLine(last, 0) {
      DecodeEncode(chunks, last, rest, room);
    } else if Decode(Encode(chunks, last, rest), room).Some? {
      var a, last', rest' := DecodeParses(Encode(chunks, last, rest), room);
      ReadOnce(a, last', rest', chunks, last, rest);
    }
  }

  // What the decoder lets through, each without any other fault.

  lemma {:induction false} ShortLine(line: seq<byte>, size: nat)
    requires |line| == 1 && HexValue(line[0]) == Some(size)
    ensures GoodLine(line, size) && HasDigits(line) && ExtensionOf(line) == []
  {
    assert line[..1] == line && line[..0] == [] && Number(line) == Some(size);
    assert SizeEnd(line, 0) == 1 by {
      assert SizeEnd(line, 1) == 1;
    }
  }

  /** Without the closing line break, and with something else in its place. */
  lemma {:induction false} UnfinishedInputs(room: nat)
    ensures Decode([48, 13, 10], room) == Some([]) && !Conforms([48, 13, 10])
    ensures Decode([48, 13, 10, 88], room) == Some([]) && !Conforms([48, 13, 10, 88])
  {
    ShortLine([48], 0);
    ConformsExactly([], [48], []);
    ConformsExactly([], [48], [88]);
    DecodeLast([48], [], room);
    DecodeLast([48], [88], room);
    assert Piece([48], []) == [48, 13, 10] && Piece([48], [88]) == [48, 13, 10, 88];
    assert forall k: nat :: !CrlfAt([], k) && !CrlfAt([88], k);
  }

  lemma {:induction false} ClosingBreak()
    ensures Trailer(CRLF)
  {
  }

  /** A last size line that is all extension. */
  lemma {:induction false} DigitlessInput(room: nat)
    ensures var last: seq<byte> := [SEMICOLON, 97];
            && Extension(ExtensionOf(last)) && Trailer(CRLF)
            && Decode(Piece(last, CRLF), room) == Some([]) && !Conforms(Piece(last, CRLF))
  {
    var last: seq<byte> := [SEMICOLON, 97];
    assert SizeEnd(last, 0) == 0 && last[..0] == [] && last[0..] == last;
    assert ExtensionItem(last) by {
      var name := last[0 + 1..];
      assert name[..1] == name[0..] == name == [97] && Named(name);
      assert Blanks(name[..0]) && PaddedName(name);
      assert Blanks(last[..0]);
    }
    assert Extension(last) by {
      assert last[..2] == last && last[2..] == [];
    }
    ClosingBreak();
    ConformsExactly([], last, CRLF);
    DecodeLast(last, CRLF, room);
  }

  /** An extension without a name. */
  lemma {:induction false} NamelessExtension(room: nat)
    ensures var last: seq<byte> := [48, SEMICOLON, EQUALS];
            && HasDigits(last) && Trailer(CRLF)
            && Decode(Piece(last, CRLF), room) == Some([]) && !Conforms(Piece(last, CRLF))
  {
    var last: seq<byte> := [48, SEMICOLON, EQUALS];
    assert SizeEnd(last, 0) == 1 by {
      assert SizeEnd(last, 1) == 1;
    }
    assert last[..1] == [48] && [48][..0] == [] && last[1..] == [SEMICOLON, EQUALS];
    assert Number(last[..1]) == Some(0);
    assert !Extension([SEMICOLON, EQUALS]) by {
      NoName();
    }
    ClosingBreak();
    ConformsExactly([], last, CRLF);
    DecodeLast(last, CRLF, room);
  }

  lemma {:induction false} NoName()
    ensures !Extension([SEMICOLON, EQUALS])
  {
    var s: seq<byte> := [SEMICOLON, EQUALS];
    forall k: nat | 0 < k <= 2 ensures !ExtensionItem(s[..k]) {
      var t := s[..k];
      forall i | 0 <= i < |t| && t[i] == SEMICOLON ensures !PaddedName(t[i + 1..]) {
        var name := t[i + 1..];
        assert name == [] || name == [EQUALS];
        forall j | 0 <= j <= |name| ensures Blanks(name[..j]) ==> !Named(name[j..]) {
          if j == 0 {
            assert name[j..] == name;
            assert forall m :: 0 < m <= |name| ==> name[..m][0] == EQUALS;
          } else {
            assert name[..j][0] == EQUALS;
          }
        }
      }
    }
  }

  // HEXDIG in either case, section 2.3 of RFC 5234.

  const LOWER_CASE := "0123456789abcdef"
  const UPPER_CASE := "0123456789ABCDEF"

  /** A digit counts its place in the alphabet, and no other byte is a digit. */
  lemma {:induction false} HexDigits(b: byte, n: nat)
    ensures HexValue(b) == Some(n) <==> n < 16 && (b == LOWER_CASE[n] as int || b == UPPER_CASE[n] as int)
  {
    assert LOWER_CASE == ['0', '1', '2', '3', '4', '5', '6', '7', '8', '9', 'a', 'b', 'c', 'd', 'e', 'f'];
    assert UPPER_CASE == ['0', '1', '2', '3', '4', '5', '6', '7', '8', '9', 'A', 'B', 'C', 'D', 'E', 'F'];
  }

  lemma {:induction false} NumberNext(digits: seq<byte>, b: byte)
    ensures Number(digits + [b]).Some? <==> Number(digits).Some? && HexValue(b).Some?
    ensures Number(digits + [b]).Some? ==> Number(digits + [b]).value == 16 * Number(digits).value + HexValue(b).value
  {
    assert (digits + [b])[..|digits|] == digits;
  }

  /** `n` with `places` zeroes behind it. */
  ghost function Shifted(n: nat, places: nat): nat {
    if places == 0 then n else 16 * Shifted(n, places - 1)
  }

  /** Sizes are positional, with the most significant digit first. */
  lemma {:induction false} NumberJoin(a: seq<byte>, b: seq<byte>)
    ensures Number(a + b).Some? <==> Number(a).Some? && Number(b).Some?
    ensures Number(a + b).Some? ==> Number(a + b).value == Shifted(Number(a).value, |b|) + Number(b).value
    decreases |b|
  {
    if b == [] {
      assert a + b == a;
    } else {
      hide Number, HexValue;
      var init, last := b[..|b| - 1], b[|b| - 1];
      NumberJoin(a, init);
      NumberNext(init, last);
      NumberNext(a + init, last);
      assert init + [last] == b && a + init + [last] == a + b;
    }
  }

  lemma {:induction false} OneDigit(b: byte)
    ensures Number([b]) == HexValue(b)
  {
    assert [b][..0] == [];
    assert Number([b][..0]) == Some(0);
  }

  // Every size can be written.

  function HexDigit(n: nat): (r: byte)
    requires n < 16
    ensures HexValue(r) == Some(n)
  {
    if n < 10 then 48 + n else 97 + n - 10
  }

  function Hex(n: nat): (r: seq<byte>)
    ensures r != []
  {
    if n < 16 then [HexDigit(n)] else Hex(n / 16) + [HexDigit(n % 16)]
  }

  lemma {:induction false} HexNumber(n: nat, width: nat)
    requires n < Pow16(width) && 0 < width
    ensures Number(Hex(n)) == Some(n) && |Hex(n)| <= width
    decreases width
  {
    if n < 16 {
      assert [HexDigit(n)][..0] == [];
    } else {
      HexNumber(n / 16, width - 1);
      assert Hex(n)[..|Hex(n)| - 1] == Hex(n / 16);
    }
  }

  /** Every size below 2^64 has a size line that conforms and is taken. */
  lemma {:induction false} SizeLine(n: nat)
    requires n < Pow16(MAX_LINE)
    ensures GoodLine(Hex(n), n) && RfcLine(Hex(n), n)
  {
    hide Hex, Number;
    var line := Hex(n);
    HexNumber(n, MAX_LINE);
    forall i | 0 <= i < |line| ensures HexValue(line[i]).Some? {
      DigitsAreHex(line, i);
    }
    SizeEndFirst(line, 0);
    assert line[..|line|] == line && line[|line|..] == [];
    assert SizeEnd(line, 0) == |line|;
  }

  function Written(pieces: seq<seq<byte>>): (r: seq<Chunk>)
    ensures |r| == |pieces| && forall k :: 0 <= k < |pieces| ==> r[k] == Chunk(Hex(|pieces[k]|), pieces[k])
  {
    seq(|pieces|, k requires 0 <= k < |pieces| => Chunk(Hex(|pieces[k]|), pieces[k]))
  }

  function Joined(pieces: seq<seq<byte>>): seq<byte> {
    if pieces == [] then [] else pieces[0] + Joined(pieces[1..])
  }

  lemma {:induction false} BodyOfWritten(pieces: seq<seq<byte>>)
    ensures Body(Written(pieces)) == Joined(pieces)
  {
    if pieces != [] {
      BodyOfWritten(pieces[1..]);
      assert Written(pieces)[1..] == Written(pieces[1..]);
    }
  }

  /** Every way of cutting a body of at most 64 KiB into pieces can be sent as a conforming chunked
      body, and the decoder gives the pieces back joined. */
  lemma {:induction false} EverySplit(pieces: seq<seq<byte>>, rest: seq<byte>)
    requires (forall k :: 0 <= k < |pieces| ==> pieces[k] != []) && |Joined(pieces)| <= CAPACITY && Trailer(rest)
    ensures var input := Encode(Written(pieces), Hex(0), rest);
            Conforms(input) && Decode(input, CAPACITY) == Some(Joined(pieces))
  {
    hide Hex, GoodLine, RfcLine, Decode, Encode, Trailer;
    var chunks := Written(pieces);
    BodyOfWritten(pieces);
    CapacityFits();
    forall k | 0 <= k < |chunks| ensures GoodLine(chunks[k].line, |chunks[k].data|) && RfcLine(chunks[k].line, |chunks[k].data|) {
      PieceFits(chunks, k);
      SizeLine(|pieces[k]|);
    }
    SizeLine(0);
    assert ConformsAs(Encode(chunks, Hex(0), rest), chunks, Hex(0), rest);
    DecodeEncode(chunks, Hex(0), rest, CAPACITY);
  }

  lemma {:induction false} CapacityFits()
    ensures CAPACITY < Pow16(MAX_LINE)
  {
    assert Pow16(5) == 0x10_0000;
    assert Pow16(10) == 0x100_0000_0000;
    assert Pow16(15) == 0x1000_0000_0000_0000;
  }

  lemma {:induction false} PieceFits(chunks: seq<Chunk>, k: nat)
    requires k < |chunks|
    ensures |chunks[k].data| <= |Body(chunks)|
  {
    if k > 0 {
      PieceFits(chunks[1..], k - 1);
    }
  }
}
