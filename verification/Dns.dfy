/**
 The DNS client of user/aarch64_browser.c: encoding a host name, stepping over a name,
 and finding an address in a response, against sections 3.1 and 4.1 of RFC 1035.
 */
module Dns {
  import opened Bytes

  const DOT := 46
  const MAX_STEPS := 128

  // The wire format.

  /** Labels, then the root or a compression pointer of two bytes. */
  datatype Name = Name(labels: seq<seq<byte>>, pointer: Option<(byte, byte)>)

  ghost predicate GoodLabel(part: seq<byte>) {
    1 <= |part| <= 63
  }

  /** As many labels as a name of 255 bytes can have. */
  ghost predicate GoodName(n: Name) {
    && |n.labels| < MAX_STEPS
    && (forall k :: 0 <= k < |n.labels| ==> GoodLabel(n.labels[k]))
    && (n.pointer.Some? ==> n.pointer.value.0 >= 0xC0)
  }

  function WireName(n: Name): (r: seq<byte>)
    decreases |n.labels|
  {
    if n.labels == [] then (if n.pointer.Some? then [n.pointer.value.0, n.pointer.value.1] else [0])
    else (if |n.labels[0]| < 256 then [|n.labels[0]|] else [0]) + n.labels[0] + WireName(Name(n.labels[1..], n.pointer))
  }

  function Be16(v: nat): (r: seq<byte>)
    ensures |r| == 2
  {
    [v / 256 % 256, v % 256]
  }

  datatype Question = Question(name: Name, fields: seq<byte>)

  datatype Record = Record(name: Name, kind: nat, class_: nat, ttl: seq<byte>, data: seq<byte>)

  function WireQuestion(q: Question): seq<byte> {
    WireName(q.name) + q.fields
  }

  function RecordFields(r: Record): seq<byte> {
    Be16(r.kind) + Be16(r.class_) + r.ttl + Be16(|r.data|)
  }

  function WireRecord(r: Record): seq<byte> {
    WireName(r.name) + (RecordFields(r) + r.data)
  }

  ghost predicate GoodQuestion(q: Question) {
    GoodName(q.name) && |q.fields| == 4
  }

  ghost predicate GoodRecord(r: Record) {
    GoodName(r.name) && r.kind < 0x1_0000 && r.class_ < 0x1_0000 && |r.ttl| == 4 && |r.data| < 0x1_0000
  }

  function WireQuestions(qs: seq<Question>): seq<byte> {
    if qs == [] then [] else WireQuestion(qs[0]) + WireQuestions(qs[1..])
  }

  function WireRecords(rs: seq<Record>): seq<byte> {
    if rs == [] then [] else WireRecord(rs[0]) + WireRecords(rs[1..])
  }

  /** An IPv4 address record of the Internet class. */
  predicate IsAddress(r: Record) {
    r.kind == 1 && r.class_ == 1 && |r.data| == 4
  }

  function FirstAddress(rs: seq<Record>): Option<seq<byte>> {
    if rs == [] then None else if IsAddress(rs[0]) then Some(rs[0].data) else FirstAddress(rs[1..])
  }

  // The client's readers over values.

  /** dns_skip_name: the position behind the name at `cursor`. */
  function Skip(packet: seq<byte>, cursor: nat, steps: nat): (r: Option<nat>)
    ensures r.Some? ==> cursor < r.value <= |packet|
    decreases steps
  {
    if cursor >= |packet| || steps == 0 then None
    else
      var length: nat := packet[cursor];
      if length >= 0xC0 then (if cursor + 2 > |packet| then None else Some(cursor + 2))
      else if length == 0 then Some(cursor + 1)
      else if length > 63 || cursor + 1 + length > |packet| then None
      else Skip(packet, cursor + 1 + length, steps - 1)
  }

  function ReadBe16(packet: seq<byte>, at: nat): nat
    requires at + 2 <= |packet|
  {
    (packet[at] as int) * 256 + packet[at + 1]
  }

  function SkipQuestions(packet: seq<byte>, cursor: nat, count: nat): (r: Option<nat>)
    requires cursor <= |packet|
    ensures r.Some? ==> r.value <= |packet|
    decreases count
  {
    if count == 0 then Some(cursor)
    else match Skip(packet, cursor, MAX_STEPS)
      case None => None
      case Some(c) => if c + 4 > |packet| then None else SkipQuestions(packet, c + 4, count - 1)
  }

  function FindAddress(packet: seq<byte>, cursor: nat, count: nat): Option<seq<byte>>
    requires cursor <= |packet|
    decreases count
  {
    if count == 0 then None
    else match Skip(packet, cursor, MAX_STEPS)
      case None => None
      case Some(c) =>
        if c + 10 > |packet| then None
        else
          var data, length := c + 10, ReadBe16(packet, c + 8);
          if data + length > |packet| then None
          else if ReadBe16(packet, c) == 1 && ReadBe16(packet, c + 2) == 1 && length == 4 then Some(packet[data..data + 4])
          else FindAddress(packet, data + length, count - 1)
  }

  predicate AnswersQuery(packet: seq<byte>, id: nat) {
    && 12 <= |packet|
    && packet[0] == id / 256 % 256 && packet[1] == id % 256
    && packet[2] >= 0x80
    && packet[3] % 16 == 0
  }

  function Answer(packet: seq<byte>, id: nat): Option<seq<byte>> {
    if !AnswersQuery(packet, id) then None
    else match SkipQuestions(packet, 12, ReadBe16(packet, 4))
      case None => None
      case Some(cursor) => FindAddress(packet, cursor, ReadBe16(packet, 6))
  }

  // A reader that starts on a well-formed piece ends behind it.

  ghost predicate StartsAt(packet: seq<byte>, cursor: nat, piece: seq<byte>) {
    cursor + |piece| <= |packet| && packet[cursor..cursor + |piece|] == piece
  }

  lemma {:induction false} StartsBoth(packet: seq<byte>, cursor: nat, a: seq<byte>, b: seq<byte>)
    requires StartsAt(packet, cursor, a + b)
    ensures StartsAt(packet, cursor, a) && StartsAt(packet, cursor + |a|, b)
  {
    var both := packet[cursor..cursor + |a + b|];
    assert packet[cursor..cursor + |a|] == both[..|a|] == a;
    assert packet[cursor + |a|..cursor + |a| + |b|] == both[|a|..] == b;
  }

  lemma {:induction false} StartsByte(packet: seq<byte>, cursor: nat, piece: seq<byte>, i: nat)
    requires StartsAt(packet, cursor, piece) && i < |piece|
    ensures packet[cursor + i] == piece[i]
  {
    assert packet[cursor..cursor + |piece|][i] == packet[cursor + i];
  }

  lemma {:induction false} SkipLabel(packet: seq<byte>, cursor: nat, part: seq<byte>, steps: nat)
    requires 0 < steps && GoodLabel(part) && StartsAt(packet, cursor, [|part|] + part)
    ensures Skip(packet, cursor, steps) == Skip(packet, cursor + 1 + |part|, steps - 1)
  {
    StartsByte(packet, cursor, [|part|] + part, 0);
  }

  lemma {:induction false} SkipEnd(packet: seq<byte>, cursor: nat, n: Name, steps: nat)
    requires 0 < steps && n.labels == [] && StartsAt(packet, cursor, WireName(n))
    requires n.pointer.Some? ==> n.pointer.value.0 >= 0xC0
    ensures Skip(packet, cursor, steps) == Some(cursor + |WireName(n)|)
  {
    StartsByte(packet, cursor, WireName(n), 0);
  }

  lemma {:induction false} WireLabel(n: Name)
    requires n.labels != [] && GoodLabel(n.labels[0])
    ensures WireName(n) == ([|n.labels[0]|] + n.labels[0]) + WireName(Name(n.labels[1..], n.pointer))
  {
  }

  lemma {:induction false} SkipName(packet: seq<byte>, cursor: nat, n: Name, steps: nat)
    requires |n.labels| < steps
    requires forall k :: 0 <= k < |n.labels| ==> GoodLabel(n.labels[k])
    requires n.pointer.Some? ==> n.pointer.value.0 >= 0xC0
    requires StartsAt(packet, cursor, WireName(n))
    ensures Skip(packet, cursor, steps) == Some(cursor + |WireName(n)|)
    decreases |n.labels|
  {
    hide Skip, StartsAt, WireName;
    if n.labels == [] {
      SkipEnd(packet, cursor, n, steps);
    } else {
      var part, rest := n.labels[0], Name(n.labels[1..], n.pointer);
      WireLabel(n);
      StartsBoth(packet, cursor, [|part|] + part, WireName(rest));
      SkipLabel(packet, cursor, part, steps);
      SkipName(packet, cursor + 1 + |part|, rest, steps - 1);
    }
  }

  lemma {:induction false} SkipAllQuestions(packet: seq<byte>, cursor: nat, qs: seq<Question>)
    requires forall k :: 0 <= k < |qs| ==> GoodQuestion(qs[k])
    requires StartsAt(packet, cursor, WireQuestions(qs))
    ensures SkipQuestions(packet, cursor, |qs|) == Some(cursor + |WireQuestions(qs)|)
    decreases |qs|
  {
    hide Skip, WireName;
    if qs != [] {
      var q := qs[0];
      StartsBoth(packet, cursor, WireQuestion(q), WireQuestions(qs[1..]));
      StartsBoth(packet, cursor, WireName(q.name), q.fields);
      SkipName(packet, cursor, q.name, MAX_STEPS);
      SkipAllQuestions(packet, cursor + |WireQuestion(q)|, qs[1..]);
    }
  }

  lemma {:induction false} ReadField(packet: seq<byte>, cursor: nat, r: Record)
    requires GoodRecord(r) && StartsAt(packet, cursor, RecordFields(r))
    ensures |RecordFields(r)| == 10
    ensures ReadBe16(packet, cursor) == r.kind && ReadBe16(packet, cursor + 2) == r.class_ && ReadBe16(packet, cursor + 8) == |r.data|
  {
    var fields := RecordFields(r);
    StartsByte(packet, cursor, fields, 0);
    StartsByte(packet, cursor, fields, 1);
    StartsByte(packet, cursor, fields, 2);
    StartsByte(packet, cursor, fields, 3);
    StartsByte(packet, cursor, fields, 8);
    StartsByte(packet, cursor, fields, 9);
  }

  lemma {:induction false} FindFirstAddress(packet: seq<byte>, cursor: nat, rs: seq<Record>)
    requires forall k :: 0 <= k < |rs| ==> GoodRecord(rs[k])
    requires StartsAt(packet, cursor, WireRecords(rs))
    ensures FindAddress(packet, cursor, |rs|) == FirstAddress(rs)
    decreases |rs|
  {
    hide Skip, WireName, RecordFields, ReadBe16;
    if rs != [] {
      var r := rs[0];
      StartsBoth(packet, cursor, WireRecord(r), WireRecords(rs[1..]));
      StartsBoth(packet, cursor, WireName(r.name), RecordFields(r) + r.data);
      var c := cursor + |WireName(r.name)|;
      StartsBoth(packet, c, RecordFields(r), r.data);
      ReadField(packet, c, r);
      SkipName(packet, cursor, r.name, MAX_STEPS);
      FindFirstAddress(packet, cursor + |WireRecord(r)|, rs[1..]);
    }
  }

  /** The header of a response without error (section 4.1.1 of RFC 1035): the query's id, the
      response bit, a zero code, and the numbers of questions and answers. */
  ghost predicate IsHeader(packet: seq<byte>, id: nat, questions: nat, answers: nat) {
    && 12 <= |packet|
    && packet[0..2] == Be16(id)
    && packet[2] / 128 == 1
    && packet[3] % 16 == 0
    && questions < 0x1_0000 && packet[4..6] == Be16(questions)
    && answers < 0x1_0000 && packet[6..8] == Be16(answers)
  }

  /** A response: its header, then questions, answers, and any further sections. */
  ghost predicate IsResponse(packet: seq<byte>, id: nat, qs: seq<Question>, rs: seq<Record>) {
    && IsHeader(packet, id, |qs|, |rs|)
    && (forall k :: 0 <= k < |qs| ==> GoodQuestion(qs[k]))
    && (forall k :: 0 <= k < |rs| ==> GoodRecord(rs[k]))
    && StartsAt(packet, 12, WireQuestions(qs) + WireRecords(rs))
  }

  lemma {:induction false} Be16At(packet: seq<byte>, at: nat, v: nat)
    requires at + 2 <= |packet| && v < 0x1_0000
    ensures packet[at..at + 2] == Be16(v) <==> ReadBe16(packet, at) == v
  {
    var two := packet[at..at + 2];
    assert two == [packet[at], packet[at + 1]];
  }

  /** A packet is taken for an answer exactly if it has such a header. */
  lemma {:induction false} HeaderIs(packet: seq<byte>, id: nat)
    requires 12 <= |packet|
    ensures AnswersQuery(packet, id) <==> IsHeader(packet, id, ReadBe16(packet, 4), ReadBe16(packet, 6))
  {
    Be16At(packet, 4, ReadBe16(packet, 4));
    Be16At(packet, 6, ReadBe16(packet, 6));
    assert packet[0..2] == [packet[0], packet[1]];
  }

  /** Another id, a query, an error or a short packet gives no address. */
  lemma {:induction false} OtherHeadersRefused(packet: seq<byte>, id: nat)
    requires |packet| < 12 || packet[0..2] != Be16(id) || packet[2] < 0x80 || packet[3] % 16 != 0
    ensures Answer(packet, id) == None
  {
    if 12 <= |packet| {
      HeaderIs(packet, id);
    }
  }

  /** On every well-formed response the client finds exactly the first Internet address record. */
  lemma {:induction false} AnswerIsFirstAddress(packet: seq<byte>, id: nat, qs: seq<Question>, rs: seq<Record>)
    requires IsResponse(packet, id, qs, rs)
    ensures Answer(packet, id) == FirstAddress(rs)
  {
    hide WireQuestions, WireRecords, SkipQuestions, FindAddress, FirstAddress, WireName, AnswersQuery, Be16, ReadBe16;
    Be16At(packet, 4, |qs|);
    Be16At(packet, 6, |rs|);
    HeaderIs(packet, id);
    StartsBoth(packet, 12, WireQuestions(qs), WireRecords(rs));
    SkipAllQuestions(packet, 12, qs);
    FindFirstAddress(packet, 12 + |WireQuestions(qs)|, rs);
  }

  // Host names.

  function LabelEnd(host: seq<byte>, start: nat): (r: nat)
    requires start <= |host|
    ensures start <= r <= |host|
    decreases |host| - start
  {
    if start == |host| || host[start] == DOT then start else LabelEnd(host, start + 1)
  }

  /** The labels between dots; no label may be empty or too long. One dot may end the name. */
  function Labels(host: seq<byte>, start: nat): (r: Option<seq<seq<byte>>>)
    decreases |host| - start
  {
    if start >= |host| then Some([])
    else
      var end := LabelEnd(host, start);
      if end == start || end - start > 63 then None
      else match Labels(host, end + 1)
        case None => None
        case Some(rest) => Some([host[start..end]] + rest)
  }

  function HostName(host: seq<byte>): Option<Name> {
    match Labels(host, 0)
    case None => None
    case Some(parts) => Some(Name(parts, None))
  }

  /** Each label costs a byte and a dot, so a host of at most 253 bytes has at most 127, and its
      encoding takes at most 255 bytes. */
  lemma {:induction false} LabelsBound(host: seq<byte>, start: nat)
    requires Labels(host, start).Some? && start <= |host| + 1
    ensures var parts := Labels(host, start).value;
            && 2 * |parts| <= |host| + 1 - start
            && |WireName(Name(parts, None))| <= |host| + 2 - start
            && forall k :: 0 <= k < |parts| ==> GoodLabel(parts[k])
    decreases |host| + 1 - start
  {
    if start < |host| {
      var end := LabelEnd(host, start);
      LabelsBound(host, end + 1);
      var rest := Labels(host, end + 1).value;
      assert Labels(host, start).value[1..] == rest;
    }
  }

  /** For every host the client encodes, stepping over the encoded name consumes exactly its
      bytes: the limit of 128 steps is enough for all 253 bytes a host may have. */
  lemma {:induction false} SkipEncodedHost(host: seq<byte>, packet: seq<byte>, cursor: nat)
    requires |host| <= 253 && HostName(host).Some?
    requires StartsAt(packet, cursor, WireName(HostName(host).value))
    ensures Skip(packet, cursor, MAX_STEPS) == Some(cursor + |WireName(HostName(host).value)|)
    ensures |WireName(HostName(host).value)| <= 255
  {
    hide Labels, Skip;
    LabelsBound(host, 0);
    SkipName(packet, cursor, HostName(host).value, MAX_STEPS);
  }

  /** And no more than enough: a name of `k` labels is refused with `k` steps. */
  lemma {:induction false} SkipNeedsSteps(packet: seq<byte>, cursor: nat, n: Name)
    requires forall k :: 0 <= k < |n.labels| ==> GoodLabel(n.labels[k])
    requires StartsAt(packet, cursor, WireName(n))
    ensures Skip(packet, cursor, |n.labels|) == None
    decreases |n.labels|
  {
    StartsByte(packet, cursor, WireName(n), 0);
    if n.labels != [] {
      var part, rest := n.labels[0], Name(n.labels[1..], n.pointer);
      assert WireName(n) == ([|part|] + part) + WireName(rest);
      StartsBoth(packet, cursor, [|part|] + part, WireName(rest));
      SkipNeedsSteps(packet, cursor + 1 + |part|, rest);
    }
  }

  /** The host with the most labels: 127 letters and the dots between them, 253 bytes. */
  function LongestHost(): (r: seq<byte>)
    ensures |r| == 253 && forall i :: 0 <= i < 253 ==> r[i] == if i % 2 == 0 then 97 else DOT
  {
    seq(253, i => if i % 2 == 0 then 97 else DOT)
  }

  lemma {:induction false} LongestLabels(start: nat)
    requires start % 2 == 0 && start <= 254
    ensures Labels(LongestHost(), start).Some? && |Labels(LongestHost(), start).value| == 127 - start / 2
    decreases 254 - start
  {
    var host := LongestHost();
    if start < 254 {
      assert host[start] == 97 && (start + 1 < 253 ==> host[start + 1] == DOT);
      assert LabelEnd(host, start + 1) == start + 1;
      assert LabelEnd(host, start) == start + 1;
      LongestLabels(start + 2);
    }
  }

  /** So 128 steps are just enough: the longest host needs every one of them. */
  lemma {:induction false} LongestHostNeedsAll(packet: seq<byte>, cursor: nat)
    requires HostName(LongestHost()).Some? ==> StartsAt(packet, cursor, WireName(HostName(LongestHost()).value))
    ensures HostName(LongestHost()).Some?
    ensures Skip(packet, cursor, MAX_STEPS - 1) == None
    ensures Skip(packet, cursor, MAX_STEPS) == Some(cursor + |WireName(HostName(LongestHost()).value)|)
  {
    hide Labels, Skip, WireName, StartsAt;
    LongestLabels(0);
    LabelsBound(LongestHost(), 0);
    SkipNeedsSteps(packet, cursor, HostName(LongestHost()).value);
    SkipEncodedHost(LongestHost(), packet, cursor);
  }

  // The loops.

  ghost function Tagged(part: seq<byte>): (r: seq<byte>)
    requires |part| < 256
    ensures |r| == |part| + 1
  {
    [|part|] + part
  }

  ghost predicate Short(parts: seq<seq<byte>>) {
    forall k :: 0 <= k < |parts| ==> |parts[k]| < 256
  }

  /** A name without its end. */
  ghost function Prefix(parts: seq<seq<byte>>): seq<byte>
    requires Short(parts)
  {
    if parts == [] then [] else Tagged(parts[0]) + Prefix(parts[1..])
  }

  lemma {:induction false} PrefixJoin(a: seq<seq<byte>>, b: seq<seq<byte>>)
    requires Short(a) && Short(b)
    ensures Short(a + b) && Prefix(a + b) == Prefix(a) + Prefix(b)
  {
    hide Tagged;
    if a == [] {
      assert a + b == b;
    } else {
      PrefixJoin(a[1..], b);
      assert (a + b)[1..] == a[1..] + b;
      assert Tagged(a[0]) + (Prefix(a[1..]) + Prefix(b)) == (Tagged(a[0]) + Prefix(a[1..])) + Prefix(b);
    }
  }

  lemma {:induction false} PrefixOne(part: seq<byte>)
    requires |part| < 256
    ensures Prefix([part]) == Tagged(part)
  {
    assert Prefix([part][1..]) == [];
  }

  lemma {:induction false} PrefixEnds(parts: seq<seq<byte>>)
    requires Short(parts)
    ensures WireName(Name(parts, None)) == Prefix(parts) + [0]
  {
    if parts != [] {
      PrefixEnds(parts[1..]);
      assert Tagged(parts[0]) + (Prefix(parts[1..]) + [0]) == (Tagged(parts[0]) + Prefix(parts[1..])) + [0];
    }
  }

  /** What the host has in all is what is encoded and what is to come. */
  ghost predicate JoinedLabels(all: Option<seq<seq<byte>>>, done: seq<seq<byte>>, more: Option<seq<seq<byte>>>) {
    all == if more.Some? then Some(done + more.value) else None
  }

  lemma {:induction false} JoinedNext(host: seq<byte>, done: seq<seq<byte>>, start: nat)
    requires start < |host| && JoinedLabels(Labels(host, 0), done, Labels(host, start))
    requires var end := LabelEnd(host, start); start < end && end - start <= 63
    ensures JoinedLabels(Labels(host, 0), done + [host[start..LabelEnd(host, start)]], Labels(host, LabelEnd(host, start) + 1))
  {
    var end := LabelEnd(host, start);
    var more := Labels(host, end + 1);
    assert more.Some? ==> done + ([host[start..end]] + more.value) == (done + [host[start..end]]) + more.value;
  }

  lemma {:induction false} TooLong(host: seq<byte>, done: seq<seq<byte>>, capacity: nat)
    requires Short(done) && |Prefix(done)| >= capacity
    requires exists more :: JoinedLabels(Labels(host, 0), done, more)
    ensures HostName(host).Some? ==> |WireName(HostName(host).value)| > capacity
  {
    hide WireName, Tagged;
    if HostName(host).Some? {
      var more :| JoinedLabels(Labels(host, 0), done, more);
      LabelsBound(host, 0);
      assert Labels(host, 0).value == done + more.value;
      forall k | 0 <= k < |more.value| ensures |more.value[k]| < 256 {
        assert more.value[k] == (done + more.value)[|done| + k];
        assert GoodLabel(Labels(host, 0).value[|done| + k]);
      }
      PrefixJoin(done, more.value);
      PrefixEnds(done + more.value);
    }
  }

  method AppendLabel(output: array<byte>, used: nat, part: seq<byte>)
    requires |part| < 256 && used + |part| + 1 <= output.Length
    modifies output
    ensures output[..used + |part| + 1] == old(output[..used]) + Tagged(part)
  {
    output[used] := |part|;
    Blit(output, used + 1, part);
    assert output[..][..used + |part| + 1] == output[..used + |part| + 1];
  }

  method DnsName(output: array<byte>, host: seq<byte>) returns (r: Option<nat>)
    requires 0 < output.Length
    modifies output
    ensures r.Some? <==> HostName(host).Some? && |WireName(HostName(host).value)| <= output.Length
    ensures r.Some? ==> r.value <= output.Length && output[..r.value] == WireName(HostName(host).value)
  {
    hide WireName, Labels, Prefix, Tagged;
    var used: nat, start: nat := 0, 0;
    ghost var done: seq<seq<byte>> := [];
    NothingDone(host);
    while start < |host|
      invariant used < output.Length && Short(done)
      invariant JoinedLabels(Labels(host, 0), done, Labels(host, start))
      invariant Prefix(done) == output[..used]
      decreases |host| - start
    {
      var end := start;
      while end < |host| && host[end] != DOT
        invariant start <= end <= |host| && LabelEnd(host, end) == LabelEnd(host, start)
      {
        end := end + 1;
      }
      var part := end - start;
      if part == 0 || part > 63 {
        BadLabel(host, start);
        return None;
      }
      JoinedNext(host, done, start);
      PrefixJoin(done, [host[start..end]]);
      PrefixOne(host[start..end]);
      if used + part + 1 >= output.Length {
        TooLong(host, done + [host[start..end]], output.Length);
        return None;
      }
      AppendLabel(output, used, host[start..end]);
      done := done + [host[start..end]];
      used := used + part + 1;
      start := end + 1;
    }
    AllDone(host, done, start);
    output[used] := 0;
    used := used + 1;
    assert output[..used] == output[..used - 1] + [0];
    return Some(used);
  }

  lemma {:induction false} NothingDone(host: seq<byte>)
    ensures JoinedLabels(Labels(host, 0), [], Labels(host, 0)) && Prefix([]) == []
  {
    assert Labels(host, 0).Some? ==> [] + Labels(host, 0).value == Labels(host, 0).value;
  }

  lemma {:induction false} BadLabel(host: seq<byte>, start: nat)
    requires start < |host|
    requires LabelEnd(host, start) == start || LabelEnd(host, start) - start > 63
    ensures Labels(host, start) == None
  {
  }

  lemma {:induction false} AllDone(host: seq<byte>, done: seq<seq<byte>>, start: nat)
    requires |host| <= start && Short(done) && JoinedLabels(Labels(host, 0), done, Labels(host, start))
    ensures HostName(host) == Some(Name(done, None)) && WireName(Name(done, None)) == Prefix(done) + [0]
  {
    assert done + [] == done;
    PrefixEnds(done);
  }

  method SkipQuestionSection(packet: seq<byte>, questions: nat) returns (r: Option<nat>)
    requires 12 <= |packet|
    ensures r == SkipQuestions(packet, 12, questions)
  {
    hide Skip;
    var cursor: nat := 12;
    for index := 0 to questions
      invariant cursor <= |packet|
      invariant SkipQuestions(packet, 12, questions) == SkipQuestions(packet, cursor, questions - index)
    {
      var next := DnsSkipName(packet, cursor);
      if next.None? || next.value + 4 > |packet| {
        return None;
      }
      cursor := next.value + 4;
    }
    return Some(cursor);
  }

  method DnsSkipName(packet: seq<byte>, start: nat) returns (r: Option<nat>)
    ensures r == Skip(packet, start, MAX_STEPS)
  {
    var cursor: nat, steps: nat := start, 0;
    while cursor < |packet| && steps < MAX_STEPS
      invariant steps <= MAX_STEPS && Skip(packet, cursor, MAX_STEPS - steps) == Skip(packet, start, MAX_STEPS)
      decreases MAX_STEPS - steps
    {
      steps := steps + 1;
      var length: nat := packet[cursor];
      if length >= 0xC0 {
        return if cursor + 2 > |packet| then None else Some(cursor + 2);
      }
      cursor := cursor + 1;
      if length == 0 {
        return Some(cursor);
      }
      if length > 63 || cursor + length > |packet| {
        return None;
      }
      cursor := cursor + length;
    }
    return None;
  }

  method DnsAnswerIpv4(packet: seq<byte>, id: nat) returns (r: Option<seq<byte>>)
    ensures r == Answer(packet, id)
  {
    hide Skip, SkipQuestions;
    if !AnswersQuery(packet, id) {
      return None;
    }
    var questions, answers := ReadBe16(packet, 4), ReadBe16(packet, 6);
    var skipped := SkipQuestionSection(packet, questions);
    if skipped.None? {
      return None;
    }
    var cursor: nat := skipped.value;
    ghost var first := cursor;
    for index := 0 to answers
      invariant cursor <= |packet|
      invariant FindAddress(packet, first, answers) == FindAddress(packet, cursor, answers - index)
    {
      var next := DnsSkipName(packet, cursor);
      if next.None? || next.value + 10 > |packet| {
        return None;
      }
      cursor := next.value;
      var kind, class_, length := ReadBe16(packet, cursor), ReadBe16(packet, cursor + 2), ReadBe16(packet, cursor + 8);
      cursor := cursor + 10;
      if cursor + length > |packet| {
        return None;
      }
      if kind == 1 && class_ == 1 && length == 4 {
        return Some(packet[cursor..cursor + 4]);
      }
      cursor := cursor + length;
    }
    return None;
  }
}
