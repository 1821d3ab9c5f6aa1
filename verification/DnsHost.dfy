/**
 Which hosts the DNS client encodes, and as which labels.
 */
module DnsHost {
  import opened Bytes
  import opened Dns

  ghost predicate Plain(part: seq<byte>) {
    1 <= |part| <= 63 && forall i :: 0 <= i < |part| ==> part[i] != 46
  }

  /** The labels with dots between them. */
  ghost function Dotted(parts: seq<seq<byte>>): seq<byte> {
    if parts == [] then [] else if |parts| == 1 then parts[0] else parts[0] + [46] + Dotted(parts[1..])
  }

  /** `s` is those labels with dots between them, and perhaps one more dot. */
  ghost predicate Spells(s: seq<byte>, parts: seq<seq<byte>>) {
    && (forall k :: 0 <= k < |parts| ==> Plain(parts[k]))
    && (s == Dotted(parts) || (parts != [] && s == Dotted(parts) + [46]))
  }

  lemma {:induction false} LabelEndFinds(host: seq<byte>, start: nat)
    requires start <= |host|
    ensures var end := LabelEnd(host, start);
            (end == |host| || host[end] == 46) && forall i :: start <= i < end ==> host[i] != 46
    decreases |host| - start
  {
    if start < |host| && host[start] != 46 {
      LabelEndFinds(host, start + 1);
    }
  }

  ghost predicate Continues(s: seq<byte>, part: seq<byte>, rest: seq<seq<byte>>) {
    |part| < |s| && s[..|part|] == part && s[|part|] == 46 && Spells(s[|part| + 1..], rest)
  }

  lemma {:induction false} SpellsNext(s: seq<byte>, part: seq<byte>, rest: seq<seq<byte>>)
    requires Plain(part)
    ensures Spells(s, [part] + rest) <==> (s == part && rest == []) || Continues(s, part, rest)
  {
    hide Plain;
    var parts := [part] + rest;
    assert parts[1..] == rest && forall k :: 0 <= k < |rest| ==> parts[k + 1] == rest[k];
    if Continues(s, part, rest) {
      assert s == part + [46] + s[|part| + 1..];
      var tail := s[|part| + 1..];
      assert tail == Dotted(rest) + [46] ==> s == (part + [46] + Dotted(rest)) + [46];
    }
    if Spells(s, parts) && s != part {
      var tail := if s == Dotted(parts) then Dotted(rest) else if rest == [] then [] else Dotted(rest) + [46];
      assert s == part + [46] + tail;
      assert s[|part| + 1..] == tail;
    }
  }

  lemma {:induction false} SpellsSomething(parts: seq<seq<byte>>)
    requires parts != [] && Plain(parts[0])
    ensures Dotted(parts) != []
  {
  }

  lemma {:induction false} LabelsHere(host: seq<byte>, start: nat, parts: seq<seq<byte>>)
    requires start < |host|
    ensures var end := LabelEnd(host, start);
            Labels(host, start) == Some(parts) <==>
            parts != [] && parts[0] == host[start..end] && Plain(parts[0]) && Labels(host, end + 1) == Some(parts[1..])
  {
    LabelEndFinds(host, start);
    var end := LabelEnd(host, start);
    assert forall i :: 0 <= i < end - start ==> host[start..end][i] == host[start + i];
    if Labels(host, start) == Some(parts) {
      assert parts[1..] == Labels(host, end + 1).value;
    }
    if parts != [] && parts[0] == host[start..end] && Plain(parts[0]) && Labels(host, end + 1) == Some(parts[1..]) {
      assert parts == [host[start..end]] + parts[1..];
    }
  }

  /** A plain beginning that ends at a dot or with the host is the first label. */
  lemma {:induction false} FirstLabel(host: seq<byte>, start: nat, end: nat)
    requires start <= end <= |host| && (end == |host| || host[end] == 46) && Plain(host[start..end])
    ensures LabelEnd(host, start) == end
  {
    LabelEndFinds(host, start);
    assert forall i :: start <= i < end ==> host[i] == host[start..end][i - start];
  }

  lemma {:induction false} SpellsFirst(host: seq<byte>, start: nat, part: seq<byte>, rest: seq<seq<byte>>)
    requires start <= |host| && Plain(part)
    ensures var s, end := host[start..], LabelEnd(host, start);
            (s == part && rest == []) || Continues(s, part, rest) <==>
            && part == host[start..end]
            && if end == |host| then rest == [] else Spells(host[end + 1..], rest)
  {
    hide Spells, Plain;
    var s, end := host[start..], LabelEnd(host, start);
    LabelEndFinds(host, start);
    if s == part {
      assert host[start..|host|] == part;
      FirstLabel(host, start, |host|);
    }
    if |part| < |s| && s[..|part|] == part && s[|part|] == 46 {
      assert host[start..start + |part|] == part;
      FirstLabel(host, start, start + |part|);
      assert s[|part| + 1..] == host[end + 1..];
    }
    if part == host[start..end] {
      assert s[..|part|] == part;
    }
  }

  /** A host is cut into exactly the labels of 1 to 63 bytes without dots that spell it, with dots
      between them and perhaps one behind the last; if there are none it is refused. */
  lemma {:induction false} LabelsExactly(host: seq<byte>, start: nat, parts: seq<seq<byte>>)
    requires start <= |host|
    ensures Labels(host, start) == Some(parts) <==> Spells(host[start..], parts)
    decreases |host| - start
  {
    if start == |host| {
      if parts != [] && Plain(parts[0]) {
        SpellsSomething(parts);
      }
    } else {
      LabelsHere(host, start, parts);
      if parts != [] && Plain(parts[0]) {
        SpellsAndLabels(host, start, parts);
      }
    }
  }

  lemma {:induction false} SpellsAndLabels(host: seq<byte>, start: nat, parts: seq<seq<byte>>)
    requires start < |host| && parts != [] && Plain(parts[0])
    ensures Spells(host[start..], parts) <==>
            parts[0] == host[start..LabelEnd(host, start)] && Labels(host, LabelEnd(host, start) + 1) == Some(parts[1..])
    decreases |host| - start, 0
  {
    hide Spells, Plain, Continues;
    var part, rest, end := parts[0], parts[1..], LabelEnd(host, start);
    assert parts == [part] + rest;
    SpellsNext(host[start..], part, rest);
    SpellsFirst(host, start, part, rest);
    if end < |host| {
      LabelsExactly(host, end + 1, rest);
    }
  }

  /** So the encoding of a host carries its bytes: the host can be read back from the labels. */
  lemma {:induction false} HostReadsBack(host: seq<byte>)
    ensures HostName(host).Some? ==> Spells(host, HostName(host).value.labels)
    ensures HostName(host).None? ==> forall parts :: !Spells(host, parts)
  {
    hide Spells, Labels;
    assert host[0..] == host;
    forall parts ensures Labels(host, 0) == Some(parts) <==> Spells(host, parts) {
      LabelsExactly(host, 0, parts);
    }
  }
}
