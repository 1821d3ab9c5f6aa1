/**
 Byte strings as the image tools handle them: little-endian integers, slices,
 writes at an offset, and records laid out as fields.
 */
module Bytes {

  type byte = b: int | 0 <= b < 256

  datatype Result<+T> = Ok(value: T) | Err

  datatype Option<+T> = None | Some(value: T)

  function Pow256(n: nat): (r: nat)
    ensures 0 < r
  {
    if n == 0 then 1 else 256 * Pow256(n - 1)
  }

  /** struct.pack of an unsigned integer of `n` bytes. */
  function Le(v: nat, n: nat): (r: seq<byte>)
    ensures |r| == n
  {
    if n == 0 then [] else [v % 256] + Le(v / 256, n - 1)
  }

  function FromLe(s: seq<byte>): nat {
    if s == [] then 0 else s[0] + 256 * FromLe(s[1..])
  }

  lemma {:induction false} LeRoundTrip(v: nat, n: nat)
    requires v < Pow256(n)
    ensures FromLe(Le(v, n)) == v
  {
    if n > 0 {
      LeRoundTrip(v / 256, n - 1);
      assert Le(v, n)[1..] == Le(v / 256, n - 1);
    }
  }

  lemma {:induction false} Pow256Values()
    ensures Pow256(2) == 0x1_0000 && Pow256(4) == 0x1_0000_0000 && Pow256(8) == 0x1_0000_0000_0000_0000
  {
    assert Pow256(4) == 256 * (256 * Pow256(2));
    assert Pow256(8) == 256 * (256 * (256 * (256 * Pow256(4))));
  }

  function Zeros(n: nat): (r: seq<byte>)
    ensures |r| == n && forall i :: 0 <= i < n ==> r[i] == 0
  {
    seq(n, _ => 0)
  }

  function Slice(s: seq<byte>, off: nat, n: nat): (r: seq<byte>)
    requires off + n <= |s|
    ensures |r| == n
  {
    s[off..off + n]
  }

  /** The little-endian number of `n` bytes at `at`. */
  ghost function Num(s: seq<byte>, at: nat, n: nat): nat
    requires at + n <= |s|
  {
    FromLe(s[at..at + n])
  }

  /** `s` with `data` written at `off`. */
  function Splice(s: seq<byte>, off: nat, data: seq<byte>): (r: seq<byte>)
    requires off + |data| <= |s|
    ensures |r| == |s|
    ensures forall i :: 0 <= i < |s| ==> r[i] == if off <= i < off + |data| then data[i - off] else s[i]
  {
    s[..off] + data + s[off + |data|..]
  }

  lemma {:induction false} SpliceRead(s: seq<byte>, off: nat, data: seq<byte>)
    requires off + |data| <= |s|
    ensures Slice(Splice(s, off, data), off, |data|) == data
  {
  }

  lemma {:induction false} SpliceFrame(s: seq<byte>, off: nat, data: seq<byte>, at: nat, n: nat)
    requires off + |data| <= |s| && at + n <= |s|
    requires at + n <= off || off + |data| <= at
    ensures Slice(Splice(s, off, data), at, n) == Slice(s, at, n)
  {
  }

  lemma {:induction false} SpliceAppend(s: seq<byte>, off: nat, a: seq<byte>, b: seq<byte>)
    requires off + |a| + |b| <= |s|
    ensures Splice(Splice(s, off, a), off + |a|, b) == Splice(s, off, a + b)
  {
  }

  /** A write inside a stretch, seen from that stretch. */
  lemma {:induction false} SpliceWithin(s: seq<byte>, off: nat, n: nat, at: nat, v: seq<byte>)
    requires off + n <= |s| && at + |v| <= n
    ensures Slice(Splice(s, off + at, v), off, n) == Splice(Slice(s, off, n), at, v)
  {
    var left, right := Slice(Splice(s, off + at, v), off, n), Splice(Slice(s, off, n), at, v);
    forall i | 0 <= i < n ensures left[i] == right[i] {
      assert left[i] == Splice(s, off + at, v)[off + i];
    }
  }

  lemma {:induction false} SliceSlice(s: seq<byte>, off: nat, n: nat, at: nat, m: nat)
    requires off + n <= |s| && at + m <= n
    ensures Slice(Slice(s, off, n), at, m) == Slice(s, off + at, m)
  {
    var inner, left, right := s[off..off + n], s[off..off + n][at..at + m], s[off + at..off + at + m];
    forall i | 0 <= i < m ensures left[i] == right[i] {
      assert left[i] == inner[at + i] == s[off + at + i];
    }
  }

  // Records.

  datatype Field = Field(off: nat, data: seq<byte>)

  ghost predicate Inside(fields: seq<Field>, size: nat) {
    forall k :: 0 <= k < |fields| ==> fields[k].off + |fields[k].data| <= size
  }

  /** The fields lie inside a record of `size` bytes, in order and apart. */
  ghost predicate Apart(fields: seq<Field>, size: nat) {
    && Inside(fields, size)
    && forall k :: 0 <= k < |fields| - 1 ==> fields[k].off + |fields[k].data| <= fields[k + 1].off
  }

  lemma {:induction false} ApartOrder(fields: seq<Field>, size: nat, j: nat, k: nat)
    requires Apart(fields, size) && j < k < |fields|
    ensures fields[j].off + |fields[j].data| <= fields[k].off
    decreases k - j
  {
    assert fields[j].off + |fields[j].data| <= fields[j + 1].off;
    if j + 1 < k {
      ApartOrder(fields, size, j + 1, k);
    }
  }

  lemma {:induction false} ApartJoin(a: seq<Field>, b: seq<Field>, middle: nat, size: nat)
    requires Apart(a, middle) && Apart(b, size) && middle <= size
    requires b != [] ==> middle <= b[0].off
    ensures Apart(a + b, size)
  {
    var both := a + b;
    forall k | 0 <= k < |both| - 1 ensures both[k].off + |both[k].data| <= both[k + 1].off {
      if k >= |a| {
        assert both[k] == b[k - |a|] && both[k + 1] == b[k - |a| + 1];
      }
    }
  }

  /** A record with its fields packed in one after the other. */
  function Stamp(record: seq<byte>, fields: seq<Field>): (r: seq<byte>)
    requires Inside(fields, |record|)
    ensures |r| == |record|
  {
    if fields == [] then record
    else
      var n := |fields| - 1;
      Splice(Stamp(record, fields[..n]), fields[n].off, fields[n].data)
  }

  lemma {:induction false} StampRead(record: seq<byte>, fields: seq<Field>, k: nat)
    requires Apart(fields, |record|) && k < |fields|
    ensures Slice(Stamp(record, fields), fields[k].off, |fields[k].data|) == fields[k].data
  {
    var n := |fields| - 1;
    var inner := Stamp(record, fields[..n]);
    if k == n {
      SpliceRead(inner, fields[n].off, fields[n].data);
    } else {
      StampRead(record, fields[..n], k);
      ApartOrder(fields, |record|, k, n);
      SpliceFrame(inner, fields[n].off, fields[n].data, fields[k].off, |fields[k].data|);
    }
  }

  // Images: the same reading of a layout, for buffers written region by region.

  ghost predicate Outside(fields: seq<Field>, i: int) {
    forall k :: 0 <= k < |fields| ==> !(fields[k].off <= i < fields[k].off + |fields[k].data|)
  }

  /** `img` is `base` with every field in its place and nothing else changed. */
  ghost predicate Written(base: seq<byte>, img: seq<byte>, fields: seq<Field>) {
    && |img| == |base|
    && Inside(fields, |img|)
    && (forall k :: 0 <= k < |fields| ==> Slice(img, fields[k].off, |fields[k].data|) == fields[k].data)
    && (forall i :: 0 <= i < |img| && Outside(fields, i) ==> img[i] == base[i])
  }

  lemma {:induction false} WrittenNothing(base: seq<byte>, fields: seq<Field>)
    ensures Written(base, base, fields[..0])
  {
  }

  /** Writing the next region keeps the earlier ones. */
  lemma {:induction false} WrittenNext(base: seq<byte>, img: seq<byte>, fields: seq<Field>, k: nat)
    requires Apart(fields, |base|) && k < |fields|
    requires Written(base, img, fields[..k])
    ensures fields[k].off + |fields[k].data| <= |img|
    ensures Written(base, Splice(img, fields[k].off, fields[k].data), fields[..k + 1])
  {
    var f := fields[k];
    var next, done := Splice(img, f.off, f.data), fields[..k + 1];
    forall j | 0 <= j < |done| ensures Slice(next, done[j].off, |done[j].data|) == done[j].data {
      if j < k {
        assert fields[..k][j] == fields[j];
        ApartOrder(fields, |base|, j, k);
        SpliceFrame(img, f.off, f.data, fields[j].off, |fields[j].data|);
      } else {
        SpliceRead(img, f.off, f.data);
      }
    }
    forall i | 0 <= i < |next| && Outside(done, i) ensures next[i] == base[i] {
      assert done[k] == f;
      forall j | 0 <= j < k ensures !(fields[..k][j].off <= i < fields[..k][j].off + |fields[..k][j].data|) {
        assert done[j] == fields[j];
      }
    }
  }

  /** The bytes from a region that is still to be written are the old ones. */
  lemma {:induction false} NotYetWritten(base: seq<byte>, img: seq<byte>, fields: seq<Field>, k: nat, n: nat)
    requires Apart(fields, |base|) && k < |fields| && fields[k].off + n <= |base|
    requires Written(base, img, fields[..k])
    ensures Slice(img, fields[k].off, n) == Slice(base, fields[k].off, n)
  {
    forall i | fields[k].off <= i < fields[k].off + n ensures img[i] == base[i] {
      forall j | 0 <= j < k ensures !(fields[..k][j].off <= i < fields[..k][j].off + |fields[..k][j].data|) {
        ApartOrder(fields, |base|, j, k);
      }
    }
  }

  /** Slice assignment into a bytearray. */
  method Blit(a: array<byte>, off: nat, data: seq<byte>)
    requires off + |data| <= a.Length
    modifies a
    ensures a[..] == Splice(old(a[..]), off, data)
  {
    for i := 0 to |data|
      invariant forall k :: 0 <= k < a.Length ==> a[k] == if off <= k < off + i then data[k - off] else old(a[k])
    {
      a[off + i] := data[i];
    }
  }
}
