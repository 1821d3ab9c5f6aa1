/**
 An open binary file as the image tools use it, and the checksum they keep.
 */
module DiskFile {
  import opened Bytes

  const SECTOR := 512

  type u32 = x: int | 0 <= x < 0x1_0000_0000

  /** One byte's effect on binascii.crc32. Nothing but that it is applied byte by byte is used. */
  type CrcStep = (u32, byte) -> u32

  /** binascii.crc32(data, start) */
  function Crc(step: CrcStep, data: seq<byte>, start: u32): (r: u32) {
    if data == [] then start else step(Crc(step, data[..|data| - 1], start), data[|data| - 1])
  }

  /** A checksum may be taken piece by piece. */
  lemma {:induction false} CrcJoin(step: CrcStep, a: seq<byte>, b: seq<byte>, start: u32)
    ensures Crc(step, a + b, start) == Crc(step, b, Crc(step, a, start))
  {
    if b == [] {
      assert a + b == a;
    } else {
      var n := |b| - 1;
      CrcJoin(step, a, b[..n], start);
      assert (a + b)[..|a + b| - 1] == a + b[..n];
    }
  }

  /** The file with `block` written at `pos`; a gap before it reads as zeroes. */
  function WriteAt(data: seq<byte>, pos: nat, block: seq<byte>): (r: seq<byte>)
    ensures pos + |block| <= |data| ==> r == Splice(data, pos, block)
  {
    if pos + |block| <= |data| then Splice(data, pos, block)
    else if pos <= |data| then data[..pos] + block
    else data + Zeros(pos - |data|) + block
  }

  class ImageFile {
    var data: seq<byte>
    var pos: nat

    constructor (data: seq<byte>)
      ensures this.data == data && pos == 0
    {
      this.data, pos := data, 0;
    }

    method Seek(to: nat)
      modifies `pos
      ensures pos == to
    {
      pos := to;
    }

    method Skip(count: nat)
      modifies `pos
      ensures pos == old(pos) + count
    {
      pos := pos + count;
    }

    /** A read at the end of the file comes back short. */
    method Read(count: nat) returns (block: seq<byte>)
      modifies `pos
      ensures pos == old(pos) + |block| && |block| <= count
      ensures old(pos) + count <= |data| ==> block == Slice(data, old(pos), count)
      ensures old(pos) + |block| <= |data| ==> block == Slice(data, old(pos), |block|)
      ensures old(pos) + count > |data| ==> |block| == if old(pos) < |data| then |data| - old(pos) else 0
    {
      block := if pos >= |data| then [] else if pos + count <= |data| then data[pos..pos + count] else data[pos..];
      pos := pos + |block|;
    }

    method Write(block: seq<byte>)
      modifies `data, `pos
      ensures data == WriteAt(old(data), old(pos), block) && pos == old(pos) + |block|
    {
      data := WriteAt(data, pos, block);
      pos := pos + |block|;
    }

    method Truncate(size: nat)
      modifies `data
      ensures |data| == size
      ensures forall i :: 0 <= i < size ==> data[i] == if i < |old(data)| then old(data)[i] else 0
    {
      data := if size <= |data| then data[..size] else data + Zeros(size - |data|);
    }
  }
}
