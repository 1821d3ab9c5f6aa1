/**
 The search of scripts/integrate_data_image.py for literals in a packaged ELF file: the
 readable ranges are read in chunks, with a tail carried over from chunk to chunk.
 */
module LiteralScan {
  import opened Bytes
  import opened DiskFile

  datatype Stretch = Stretch(offset: nat, length: nat)

  /** The literal stands in the data in one piece. Nothing is found in no data at all. */
  ghost predicate Occurs(literal: seq<byte>, data: seq<byte>) {
    data != [] && exists i: nat :: At(literal, data, i)
  }

  predicate At(literal: seq<byte>, data: seq<byte>, i: nat) {
    i + |literal| <= |data| && data[i..i + |literal|] == literal
  }

  /** Python's `in` between byte strings. */
  method Contains(literal: seq<byte>, data: seq<byte>) returns (r: bool)
    requires data != []
    ensures r <==> Occurs(literal, data)
  {
    var i: nat := 0;
    while i + |literal| <= |data|
      invariant forall k: nat :: k < i ==> !At(literal, data, k)
    {
      if data[i..i + |literal|] == literal {
        assert At(literal, data, i);
        return true;
      }
      i := i + 1;
    }
    return false;
  }

  /** What is still missing of `missing` after reading `data`. */
  ghost function Unseen(missing: set<seq<byte>>, data: seq<byte>): set<seq<byte>> {
    set literal | literal in missing && !Occurs(literal, data)
  }

  /** The last `n` bytes, or all if there are fewer. */
  function Tail(data: seq<byte>, n: nat): (r: seq<byte>)
    ensures |r| == if |data| < n then |data| else n
  {
    if |data| < n then data else data[|data| - n..]
  }

  lemma {:induction false} TailOfTail(data: seq<byte>, block: seq<byte>, n: nat)
    ensures Tail(Tail(data, n) + block, n) == Tail(data + block, n)
  {
    var left, right := Tail(Tail(data, n) + block, n), Tail(data + block, n);
    assert |left| == |right|;
    forall i | 0 <= i < |left| ensures left[i] == right[i] {
    }
  }

  /** A literal standing in a stretch of the data stands in the data. */
  lemma {:induction false} AtWithin(literal: seq<byte>, data: seq<byte>, lo: nat, hi: nat, i: nat)
    requires lo <= hi <= |data|
    ensures lo + i + |literal| <= hi ==> (At(literal, data[lo..hi], i) <==> At(literal, data, lo + i))
  {
    if lo + i + |literal| <= hi {
      SliceSlice(data, lo, hi - lo, i, |literal|);
    }
  }

  lemma {:induction false} OccursWithin(literal: seq<byte>, data: seq<byte>, lo: nat, hi: nat)
    requires lo <= hi <= |data| && Occurs(literal, data[lo..hi])
    ensures Occurs(literal, data)
  {
    var i: nat :| At(literal, data[lo..hi], i);
    AtWithin(literal, data, lo, hi, i);
  }

  /** A literal no longer than the tail and one byte is in what has been read exactly if it was
      there before or is in the tail with the new block. */
  lemma {:induction false} SampleSuffices(literal: seq<byte>, data: seq<byte>, block: seq<byte>, n: nat)
    requires block != [] && |literal| <= n + 1
    ensures Occurs(literal, data + block) <==> Occurs(literal, data) || Occurs(literal, Tail(data, n) + block)
  {
    hide At;
    var all, sample := data + block, Tail(data, n) + block;
    var shift := |all| - |sample|;
    assert all[0..|data|] == data && all[shift..|all|] == sample;
    if Occurs(literal, data) {
      OccursWithin(literal, all, 0, |data|);
    }
    if Occurs(literal, sample) {
      OccursWithin(literal, all, shift, |all|);
    }
    if Occurs(literal, all) {
      var i: nat :| At(literal, all, i);
      AtInside(literal, all, i);
      if i < shift {
        AtWithin(literal, all, 0, |data|, i);
        assert At(literal, data, i);
      } else {
        AtWithin(literal, all, shift, |all|, i - shift);
        assert At(literal, sample, i - shift);
      }
    }
  }

  lemma {:induction false} AtInside(literal: seq<byte>, data: seq<byte>, i: nat)
    requires At(literal, data, i)
    ensures i + |literal| <= |data|
  {
  }

  ghost predicate Short(literals: set<seq<byte>>, n: nat) {
    forall literal :: literal in literals ==> |literal| <= n + 1
  }

  lemma {:induction false} UnseenNext(missing: set<seq<byte>>, data: seq<byte>, block: seq<byte>, n: nat)
    requires block != [] && Short(missing, n)
    ensures Unseen(Unseen(missing, data), Tail(data, n) + block) == Unseen(missing, data + block)
  {
    forall literal | literal in missing
      ensures Occurs(literal, data + block) <==> Occurs(literal, data) || Occurs(literal, Tail(data, n) + block)
    {
      SampleSuffices(literal, data, block, n);
    }
  }

  method DropFound(missing: set<seq<byte>>, sample: seq<byte>) returns (r: set<seq<byte>>)
    requires sample != []
    ensures r == Unseen(missing, sample)
  {
    hide Occurs;
    r := {};
    var left := missing;
    while left != {}
      invariant left <= missing && r == Unseen(missing - left, sample)
      decreases left
    {
      var literal :| literal in left;
      var found := Contains(literal, sample);
      if !found {
        r := r + {literal};
      }
      left := left - {literal};
    }
    assert missing - left == missing;
  }

  lemma {:induction false} NextChunk(all: seq<byte>, at: nat, length: nat, done: nat, count: nat)
    requires at + length <= |all| && done + count <= length
    ensures Slice(all, at, length)[..done] + Slice(all, at + done, count) == Slice(all, at, length)[..done + count]
  {
  }

  /** One range, in chunks of any size. */
  method ScanRange(source: ImageFile, base: nat, range: Stretch, missing: set<seq<byte>>, overlap: nat, chunk: nat)
    returns (r: set<seq<byte>>)
    requires 0 < chunk && Short(missing, overlap)
    requires base + range.offset + range.length <= |source.data|
    modifies source`pos
    ensures r == Unseen(missing, Slice(source.data, base + range.offset, range.length))
  {
    hide Occurs, Tail;
    ghost var data := Slice(source.data, base + range.offset, range.length);
    source.Seek(base + range.offset);
    var remaining: nat := range.length;
    var tail: seq<byte> := [];
    r := missing;
    NothingSeen(missing, overlap);
    while remaining != 0 && r != {}
      invariant remaining <= range.length && source.pos == base + range.offset + range.length - remaining
      invariant tail == Tail(data[..range.length - remaining], overlap)
      invariant r == Unseen(missing, data[..range.length - remaining])
    {
      var done := range.length - remaining;
      var count := if remaining < chunk then remaining else chunk;
      var block := source.Read(count);
      NextChunk(source.data, base + range.offset, range.length, done, count);
      UnseenNext(missing, data[..done], block, overlap);
      TailOfTail(data[..done], block, overlap);
      var sample := tail + block;
      r := DropFound(r, sample);
      tail := Tail(sample, overlap);
      remaining := remaining - count;
    }
    if remaining == 0 {
      assert data[..range.length] == data;
    } else {
      NoneMissing(missing, data, range.length - remaining);
    }
  }

  lemma {:induction false} NothingSeen(missing: set<seq<byte>>, n: nat)
    ensures Unseen(missing, []) == missing && Tail([], n) == []
  {
  }

  /** Once all are found, reading on changes nothing. */
  lemma {:induction false} NoneMissing(missing: set<seq<byte>>, data: seq<byte>, k: nat)
    requires k <= |data| && Unseen(missing, data[..k]) == {}
    ensures Unseen(missing, data) == {}
  {
    forall literal | literal in missing ensures Occurs(literal, data) {
      assert literal !in Unseen(missing, data[..k]);
      var i: nat :| At(literal, data[..k], i);
      assert data[i..i + |literal|] == data[..k][i..i + |literal|];
      assert At(literal, data, i);
    }
  }

  ghost predicate FoundIn(literal: seq<byte>, data: seq<byte>, base: nat, ranges: seq<Stretch>)
    requires InFile(data, base, ranges)
  {
    exists k :: 0 <= k < |ranges| && Occurs(literal, Slice(data, base + ranges[k].offset, ranges[k].length))
  }

  ghost predicate InFile(data: seq<byte>, base: nat, ranges: seq<Stretch>) {
    forall k :: 0 <= k < |ranges| ==> base + ranges[k].offset + ranges[k].length <= |data|
  }

  method LongestOverlap(literals: set<seq<byte>>) returns (overlap: nat)
    ensures Short(literals, overlap)
  {
    var left := literals;
    overlap := 0;
    while left != {}
      invariant left <= literals && Short(literals - left, overlap)
      decreases left
    {
      var literal :| literal in left;
      if |literal| > overlap + 1 {
        overlap := |literal| - 1;
      }
      left := left - {literal};
    }
    assert literals - left == literals;
  }

  /** The scan accepts exactly when every literal stands in one piece inside some readable range,
      whatever the chunk size and however many chunks a literal spans. */
  method Scan(source: ImageFile, base: nat, ranges: seq<Stretch>, literals: set<seq<byte>>, chunk: nat) returns (ok: bool)
    requires 0 < chunk && InFile(source.data, base, ranges)
    modifies source`pos
    ensures ok <==> forall literal :: literal in literals ==> FoundIn(literal, source.data, base, ranges)
  {
    hide Occurs;
    var missing := literals;
    var overlap := LongestOverlap(literals);
    var k := 0;
    while k < |ranges| && missing != {}
      invariant k <= |ranges| && InFile(source.data, base, ranges)
      invariant missing <= literals
      invariant forall literal :: literal in literals ==>
        (literal !in missing <==> FoundIn(literal, source.data, base, ranges[..k]))
    {
      ghost var data := Slice(source.data, base + ranges[k].offset, ranges[k].length);
      ghost var before := missing;
      missing := ScanRange(source, base, ranges[k], missing, overlap, chunk);
      forall literal | literal in literals
        ensures literal !in missing <==> FoundIn(literal, source.data, base, ranges[..k + 1])
      {
        FoundNext(literal, source.data, base, ranges, k);
      }
      k := k + 1;
    }
    if missing == {} {
      forall literal | literal in literals ensures FoundIn(literal, source.data, base, ranges) {
        FoundMore(literal, source.data, base, ranges, k);
      }
    } else {
      assert ranges[..k] == ranges;
    }
    ok := missing == {};
  }

  lemma {:induction false} FoundNext(literal: seq<byte>, data: seq<byte>, base: nat, ranges: seq<Stretch>, k: nat)
    requires InFile(data, base, ranges) && k < |ranges|
    ensures InFile(data, base, ranges[..k]) && InFile(data, base, ranges[..k + 1])
    ensures FoundIn(literal, data, base, ranges[..k + 1])
            <==> FoundIn(literal, data, base, ranges[..k]) || Occurs(literal, Slice(data, base + ranges[k].offset, ranges[k].length))
  {
    hide Occurs;
    var longer, shorter := ranges[..k + 1], ranges[..k];
    if FoundIn(literal, data, base, longer) {
      var j :| 0 <= j < k + 1 && Occurs(literal, Slice(data, base + longer[j].offset, longer[j].length));
      assert j < k ==> shorter[j] == longer[j];
    }
    if FoundIn(literal, data, base, shorter) {
      var j :| 0 <= j < k && Occurs(literal, Slice(data, base + shorter[j].offset, shorter[j].length));
      assert shorter[j] == longer[j];
    }
    assert longer[k] == ranges[k];
  }

  lemma {:induction false} FoundMore(literal: seq<byte>, data: seq<byte>, base: nat, ranges: seq<Stretch>, k: nat)
    requires InFile(data, base, ranges) && k <= |ranges| && InFile(data, base, ranges[..k])
    requires FoundIn(literal, data, base, ranges[..k])
    ensures FoundIn(literal, data, base, ranges)
  {
    hide Occurs;
    var j :| 0 <= j < k && Occurs(literal, Slice(data, base + ranges[..k][j].offset, ranges[..k][j].length));
    assert ranges[..k][j] == ranges[j];
  }
}
