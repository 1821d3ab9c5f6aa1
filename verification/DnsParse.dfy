/**
 The converse of the DNS client's promise: whenever it returns an address, the packet is a response
 whose questions and records it has read, and the address is its first.
 */
module DnsParse {
  import opened Bytes
  import opened Dns

  /** What the client steps over as a name is one: labels of 1 to 63 bytes, then the root or a pointer. */
  lemma {:induction false} SkipParses(packet: seq<byte>, cursor: nat, steps: nat) returns (n: Name)
    requires Skip(packet, cursor, steps).Some?
    ensures |n.labels| < steps && (forall k :: 0 <= k < |n.labels| ==> GoodLabel(n.labels[k]))
    ensures n.pointer.Some? ==> n.pointer.value.0 >= 0xC0
    ensures StartsAt(packet, cursor, WireName(n)) && Skip(packet, cursor, steps) == Some(cursor + |WireName(n)|)
    decreases steps
  {
    hide WireName, StartsAt, GoodLabel;
    var length: nat := packet[cursor];
    if length >= 0xC0 || length == 0 {
      n := NameEnds(packet, cursor);
    } else {
      var rest := SkipParses(packet, cursor + 1 + length, steps - 1);
      n := NameMore(packet, cursor, length, rest);
    }
  }

  lemma {:induction false} NameEnds(packet: seq<byte>, cursor: nat) returns (n: Name)
    requires cursor < |packet| && (packet[cursor] == 0 || (packet[cursor] >= 0xC0 && cursor + 2 <= |packet|))
    ensures n.labels == [] && StartsAt(packet, cursor, WireName(n))
    ensures if packet[cursor] == 0 then n.pointer == None && |WireName(n)| == 1
            else n.pointer.Some? && n.pointer.value.0 >= 0xC0 && |WireName(n)| == 2
  {
    if packet[cursor] == 0 {
      n := Name([], None);
      assert packet[cursor..cursor + 1] == [0];
    } else {
      n := Name([], Some((packet[cursor], packet[cursor + 1])));
      assert packet[cursor..cursor + 2] == [packet[cursor], packet[cursor + 1]];
    }
  }

  lemma {:induction false} NameMore(packet: seq<byte>, cursor: nat, length: nat, rest: Name) returns (n: Name)
    requires 1 <= length <= 63 && cursor + 1 + length <= |packet| && packet[cursor] == length
    requires StartsAt(packet, cursor + 1 + length, WireName(rest))
    requires forall k :: 0 <= k < |rest.labels| ==> GoodLabel(rest.labels[k])
    ensures |n.labels| == |rest.labels| + 1 && n.pointer == rest.pointer && forall k :: 0 <= k < |n.labels| ==> GoodLabel(n.labels[k])
    ensures StartsAt(packet, cursor, WireName(n)) && |WireName(n)| == 1 + length + |WireName(rest)|
  {
    var part := packet[cursor + 1..cursor + 1 + length];
    n := Name([part] + rest.labels, rest.pointer);
    assert n.labels[1..] == rest.labels;
    WireLabel(n);
    hide WireName;
    var wire := WireName(rest);
    assert packet[cursor..cursor + 1 + length + |wire|] == ([length] + part) + wire;
  }

  lemma {:induction false} StartsJoin(packet: seq<byte>, cursor: nat, a: seq<byte>, b: seq<byte>)
    requires StartsAt(packet, cursor, a) && StartsAt(packet, cursor + |a|, b)
    ensures StartsAt(packet, cursor, a + b)
  {
    assert packet[cursor..cursor + |a + b|] == packet[cursor..cursor + |a|] + packet[cursor + |a|..cursor + |a| + |b|];
  }

  lemma {:induction false} StartsHere(packet: seq<byte>, cursor: nat, n: nat)
    requires cursor + n <= |packet|
    ensures StartsAt(packet, cursor, packet[cursor..cursor + n])
  {
  }

  lemma {:induction false} QuestionsParse(packet: seq<byte>, cursor: nat, count: nat) returns (qs: seq<Question>)
    requires cursor <= |packet| && SkipQuestions(packet, cursor, count).Some?
    ensures |qs| == count && forall k :: 0 <= k < |qs| ==> GoodQuestion(qs[k])
    ensures StartsAt(packet, cursor, WireQuestions(qs))
    ensures SkipQuestions(packet, cursor, count) == Some(cursor + |WireQuestions(qs)|)
    decreases count
  {
    hide Skip, WireName, StartsAt;
    if count == 0 {
      qs := [];
      StartsHere(packet, cursor, 0);
      assert packet[cursor..cursor] == [];
    } else {
      var name := SkipParses(packet, cursor, MAX_STEPS);
      var c := cursor + |WireName(name)|;
      var q := Question(name, packet[c..c + 4]);
      var rest := QuestionsParse(packet, c + 4, count - 1);
      StartsHere(packet, c, 4);
      StartsJoin(packet, cursor, WireName(name), q.fields);
      StartsJoin(packet, cursor, WireQuestion(q), WireQuestions(rest));
      qs := [q] + rest;
      assert qs[1..] == rest;
    }
  }

  /** The record at `cursor`, behind its name. */
  lemma {:induction false} RecordParses(packet: seq<byte>, cursor: nat, name: Name) returns (r: Record)
    requires GoodName(name) && StartsAt(packet, cursor, WireName(name))
    requires var c := cursor + |WireName(name)|; c + 10 <= |packet| && c + 10 + ReadBe16(packet, c + 8) <= |packet|
    ensures GoodRecord(r) && r.name == name && StartsAt(packet, cursor, WireRecord(r))
    ensures var c := cursor + |WireName(name)|;
            && |WireRecord(r)| == |WireName(name)| + 10 + |r.data|
            && r.kind == ReadBe16(packet, c) && r.class_ == ReadBe16(packet, c + 2) && |r.data| == ReadBe16(packet, c + 8)
            && r.data == packet[c + 10..c + 10 + |r.data|]
  {
    hide WireName, ReadBe16, Be16, StartsAt;
    var c := cursor + |WireName(name)|;
    var length := ReadBe16(packet, c + 8);
    ReadBound(packet, c);
    ReadBound(packet, c + 2);
    ReadBound(packet, c + 8);
    r := Record(name, ReadBe16(packet, c), ReadBe16(packet, c + 2), packet[c + 4..c + 8], packet[c + 10..c + 10 + length]);
    assert RecordFields(r) == packet[c..c + 10] by {
      assert packet[c..c + 10] == packet[c..c + 2] + packet[c + 2..c + 4] + packet[c + 4..c + 8] + packet[c + 8..c + 10];
    }
    StartsHere(packet, c, 10);
    StartsHere(packet, c + 10, length);
    StartsJoin(packet, c, RecordFields(r), r.data);
    StartsJoin(packet, cursor, WireName(name), RecordFields(r) + r.data);
  }

  lemma {:induction false} ReadBound(packet: seq<byte>, at: nat)
    requires at + 2 <= |packet|
    ensures ReadBe16(packet, at) < 0x1_0000 && packet[at..at + 2] == Be16(ReadBe16(packet, at))
  {
    Be16At(packet, at, ReadBe16(packet, at));
  }

  lemma {:induction false} AddressParses(packet: seq<byte>, cursor: nat, count: nat) returns (rs: seq<Record>)
    requires cursor <= |packet| && FindAddress(packet, cursor, count).Some?
    ensures 0 < |rs| <= count && (forall k :: 0 <= k < |rs| ==> GoodRecord(rs[k]))
    ensures StartsAt(packet, cursor, WireRecords(rs))
    ensures IsAddress(rs[|rs| - 1]) && FindAddress(packet, cursor, count) == Some(rs[|rs| - 1].data)
    ensures forall k :: 0 <= k < |rs| - 1 ==> !IsAddress(rs[k])
    decreases count
  {
    hide Skip, WireName, StartsAt, ReadBe16, WireRecord, GoodRecord;
    var name := SkipParses(packet, cursor, MAX_STEPS);
    var r := RecordParses(packet, cursor, name);
    if IsAddress(r) {
      rs := [r];
      assert rs[1..] == [] && WireRecords(rs) == WireRecord(r) + [] == WireRecord(r);
    } else {
      var rest := AddressParses(packet, cursor + |WireRecord(r)|, count - 1);
      StartsJoin(packet, cursor, WireRecord(r), WireRecords(rest));
      rs := [r] + rest;
      assert rs[1..] == rest;
    }
  }

  /** Whenever the client returns an address, the packet is a response to its query with that
      address in its first Internet address record; what comes after that record may be anything. */
  lemma {:induction false} AnswerParses(packet: seq<byte>, id: nat) returns (qs: seq<Question>, rs: seq<Record>, answers: nat)
    requires Answer(packet, id).Some?
    ensures IsHeader(packet, id, |qs|, answers) && 0 < |rs| <= answers
    ensures (forall k :: 0 <= k < |qs| ==> GoodQuestion(qs[k])) && (forall k :: 0 <= k < |rs| ==> GoodRecord(rs[k]))
    ensures StartsAt(packet, 12, WireQuestions(qs) + WireRecords(rs))
    ensures IsAddress(rs[|rs| - 1]) && Answer(packet, id) == Some(rs[|rs| - 1].data)
    ensures forall k :: 0 <= k < |rs| - 1 ==> !IsAddress(rs[k])
  {
    hide SkipQuestions, FindAddress, WireQuestions, WireRecords, StartsAt, ReadBe16, GoodQuestion, GoodRecord, IsHeader, AnswersQuery;
    AnswersLong(packet, id);
    HeaderIs(packet, id);
    answers := ReadBe16(packet, 6);
    qs := QuestionsParse(packet, 12, ReadBe16(packet, 4));
    rs := AddressParses(packet, 12 + |WireQuestions(qs)|, answers);
    StartsJoin(packet, 12, WireQuestions(qs), WireRecords(rs));
  }

  lemma {:induction false} AnswersLong(packet: seq<byte>, id: nat)
    ensures AnswersQuery(packet, id) ==> 12 <= |packet|
  {
  }
}
