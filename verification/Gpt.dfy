/**
 The GPT disk of scripts/mkgpt.py, and a reader of it after section 5.3 of the UEFI
 Specification.
 */
module Gpt {
  import opened Bytes
  import opened DiskFile

  const ALIGN_LBA := 2048
  const ENTRY_COUNT := 128
  const ENTRY_BYTES := 128
  const ENTRY_SECTORS := 32
  const TABLE_BYTES := ENTRY_COUNT * ENTRY_BYTES
  /** No file is longer. */
  const MAX_FILE := 0x4000_0000_0000_0000

  const SIGNATURE: seq<byte> := [69, 70, 73, 32, 80, 65, 82, 84]
  const ESP_TYPE: seq<byte> :=
    [0x28, 0x73, 0x2a, 0xc1, 0x1f, 0xf8, 0xd2, 0x11, 0xba, 0x4b, 0x00, 0xa0, 0xc9, 0x3e, 0xc9, 0x3b]
  const MAKOS_DATA_TYPE: seq<byte> :=
    [0x74, 0x8f, 0x6a, 0x8d, 0x33, 0x3e, 0x44, 0x4d, 0xa2, 0xe7, 0x0f, 0x5a, 0x4b, 0x4f, 0x53, 0x01]
  const DISK_GUID: seq<byte> :=
    [0x1b, 0xbf, 0x3d, 0xf5, 0x9d, 0x4a, 0xb7, 0x4c, 0x98, 0x10, 0x4d, 0x61, 0x6b, 0x4f, 0x53, 0x01]
  const ESP_GUID: seq<byte> :=
    [0xc8, 0x6f, 0x58, 0xee, 0x07, 0x2f, 0xde, 0x49, 0xa9, 0x8c, 0x4d, 0x61, 0x6b, 0x45, 0x53, 0x50]
  const DATA_GUID: seq<byte> :=
    [0x02, 0xbf, 0x51, 0x15, 0x2c, 0xb6, 0x59, 0x4e, 0x81, 0x87, 0x4d, 0x61, 0x6b, 0x44, 0x41, 0x54]
  const ESP_NAME: seq<byte> := [77, 0, 97, 0, 107, 0, 79, 0, 83, 0, 32, 0, 69, 0, 83, 0, 80, 0]
  const DATA_NAME: seq<byte> := [77, 0, 97, 0, 107, 0, 79, 0, 83, 0, 32, 0, 68, 0, 97, 0, 116, 0, 97, 0]

  function Align(value: nat): (r: nat)
    ensures value <= r < value + ALIGN_LBA && r % ALIGN_LBA == 0
  {
    (value + ALIGN_LBA - 1) / ALIGN_LBA * ALIGN_LBA
  }

  predicate GoodInput(image: seq<byte>) {
    image != [] && |image| % SECTOR == 0
  }

  /** The two images and where they go. */
  datatype Plan = Plan(esp: seq<byte>, data: seq<byte>)
  {
    ghost predicate Valid() {
      GoodInput(esp) && GoodInput(data) && |esp| < MAX_FILE && |data| < MAX_FILE
    }

    function EspFirst(): nat { ALIGN_LBA }
    function EspEnd(): nat { ALIGN_LBA + |esp| / SECTOR }
    function DataFirst(): nat { Align(EspEnd()) }
    function DataEnd(): nat { DataFirst() + |data| / SECTOR }
    function BackupTable(): nat { DataEnd() }
    function BackupHeader(): nat { DataEnd() + ENTRY_SECTORS }
    function TotalBytes(): nat { (BackupHeader() + 1) * SECTOR }
  }

  // What is written.

  function PartitionFields(kind: seq<byte>, unique: seq<byte>, first: nat, last: nat, name: seq<byte>): (r: seq<Field>)
    requires |kind| == |unique| == 16 && |name| <= 72
    ensures |r| == 6 && Apart(r, ENTRY_BYTES)
  {
    [Field(0, kind), Field(16, unique), Field(32, Le(first, 8)), Field(40, Le(last, 8)), Field(48, Le(0, 8)), Field(56, name)]
  }

  function PartitionBytes(kind: seq<byte>, unique: seq<byte>, first: nat, last: nat, name: seq<byte>): (r: seq<byte>)
    requires |kind| == |unique| == 16 && |name| <= 72
    ensures |r| == ENTRY_BYTES
  {
    Stamp(Zeros(ENTRY_BYTES), PartitionFields(kind, unique, first, last, name))
  }

  function Table(p: Plan): (r: seq<byte>)
    requires 0 < p.EspEnd() && 0 < p.DataEnd()
    ensures |r| == TABLE_BYTES
  {
    PartitionBytes(ESP_TYPE, ESP_GUID, p.EspFirst(), p.EspEnd() - 1, ESP_NAME)
    + PartitionBytes(MAKOS_DATA_TYPE, DATA_GUID, p.DataFirst(), p.DataEnd() - 1, DATA_NAME)
    + Zeros(TABLE_BYTES - 2 * ENTRY_BYTES)
  }

  datatype Header = Header(current: nat, backup: nat, firstUsable: nat, lastUsable: nat, entriesLba: nat, entriesCrc: nat)

  /** The fields but for the header's own checksum, which counts as zero. */
  function HeaderFields(h: Header): (r: seq<Field>)
    ensures |r| == 13 && Apart(r, 92)
  {
    HeaderFront(h) + HeaderBack(h)
  }

  function HeaderFront(h: Header): (r: seq<Field>)
    ensures |r| == 7 && Apart(r, 48)
    ensures r[3] == Field(16, Zeros(8))
  {
    [Field(0, SIGNATURE), Field(8, Le(0x0001_0000, 4)), Field(12, Le(92, 4)), Field(16, Zeros(8)),
     Field(24, Le(h.current, 8)), Field(32, Le(h.backup, 8)), Field(40, Le(h.firstUsable, 8))]
  }

  function HeaderBack(h: Header): (r: seq<Field>)
    ensures |r| == 6 && Apart(r, 92) && r[0].off == 48
  {
    [Field(48, Le(h.lastUsable, 8)), Field(56, DISK_GUID), Field(72, Le(h.entriesLba, 8)),
     Field(80, Le(ENTRY_COUNT, 4)), Field(84, Le(ENTRY_BYTES, 4)), Field(88, Le(h.entriesCrc, 4))]
  }

  function HeaderBody(h: Header): (r: seq<byte>)
    ensures |r| == SECTOR
  {
    Stamp(Zeros(SECTOR), HeaderFields(h))
  }

  function HeaderSector(step: CrcStep, h: Header): (r: seq<byte>)
    ensures |r| == SECTOR
  {
    Splice(HeaderBody(h), 16, Le(Crc(step, HeaderBody(h)[..92], 0), 4))
  }

  function ProtectiveMbr(p: Plan): (r: seq<byte>)
    ensures |r| == SECTOR
  {
    var last := if p.BackupHeader() < 0xFFFF_FFFF then p.BackupHeader() else 0xFFFF_FFFF;
    var fields := [Field(450, [0xEE]), Field(454, Le(1, 4)), Field(458, Le(last, 4)), Field(510, [0x55, 0xAA])];
    Stamp(Zeros(SECTOR), fields)
  }

  /** The primary header names the backup and the other way round. */
  function HeaderOf(step: CrcStep, p: Plan, primary: bool): Header
    requires 0 < p.EspEnd() && 0 < p.DataEnd()
  {
    var crc := Crc(step, Table(p), 0);
    if primary then Header(1, p.BackupHeader(), 2 + ENTRY_SECTORS, p.DataEnd() - 1, 2, crc)
    else Header(p.BackupHeader(), 1, 2 + ENTRY_SECTORS, p.DataEnd() - 1, p.BackupTable(), crc)
  }

  function RegionOffset(p: Plan, k: nat): nat
    requires k < 7
  {
    if k < 3 then k * SECTOR
    else if k == 3 then p.EspFirst() * SECTOR
    else if k == 4 then p.DataFirst() * SECTOR
    else if k == 5 then p.BackupTable() * SECTOR
    else p.BackupHeader() * SECTOR
  }

  function RegionData(step: CrcStep, p: Plan, k: nat): (r: seq<byte>)
    requires k < 7 && p.Valid()
    ensures k == 0 || k == 1 || k == 6 ==> |r| == SECTOR
    ensures k == 2 || k == 5 ==> |r| == TABLE_BYTES
  {
    if k == 0 then ProtectiveMbr(p)
    else if k == 1 then HeaderSector(step, HeaderOf(step, p, true))
    else if k == 2 || k == 5 then Table(p)
    else if k == 3 then p.esp
    else if k == 4 then p.data
    else HeaderSector(step, HeaderOf(step, p, false))
  }

  lemma {:induction false} RegionEnd(step: CrcStep, p: Plan, k: nat)
    requires p.Valid() && k < 7
    ensures RegionOffset(p, k) + |RegionData(step, p, k)| <= if k < 6 then RegionOffset(p, k + 1) else p.TotalBytes()
  {
    hide Table, HeaderSector, ProtectiveMbr;
  }

  lemma {:induction false} RegionInside(step: CrcStep, p: Plan, k: nat)
    requires p.Valid() && k < 7
    ensures RegionOffset(p, k) + |RegionData(step, p, k)| <= p.TotalBytes()
    decreases 7 - k
  {
    hide RegionOffset, RegionData;
    RegionEnd(step, p, k);
    if k < 6 {
      RegionInside(step, p, k + 1);
    }
  }

  function Regions(step: CrcStep, p: Plan): (r: seq<Field>)
    requires p.Valid()
    ensures |r| == 7 && Apart(r, p.TotalBytes())
    ensures forall k :: 0 <= k < 7 ==> r[k] == Field(RegionOffset(p, k), RegionData(step, p, k))
  {
    var r := seq(7, k requires 0 <= k < 7 => Field(RegionOffset(p, k), RegionData(step, p, k)));
    RegionsApart(step, p, r);
    r
  }

  lemma {:induction false} RegionsApart(step: CrcStep, p: Plan, r: seq<Field>)
    requires p.Valid() && |r| == 7
    requires forall k :: 0 <= k < 7 ==> r[k] == Field(RegionOffset(p, k), RegionData(step, p, k))
    ensures Apart(r, p.TotalBytes())
  {
    hide RegionOffset, RegionData;
    forall k | 0 <= k < 7 ensures r[k].off + |r[k].data| <= p.TotalBytes() {
      RegionInside(step, p, k);
    }
    forall k | 0 <= k < 6 ensures r[k].off + |r[k].data| <= r[k + 1].off {
      RegionEnd(step, p, k);
    }
  }

  /** A disk built from a plan: its regions, and zeroes between them. */
  ghost predicate IsDisk(step: CrcStep, img: seq<byte>, p: Plan)
    ensures IsDisk(step, img, p) ==> p.Valid() && |img| == p.TotalBytes()
  {
    p.Valid() && Written(Zeros(p.TotalBytes()), img, Regions(step, p))
  }

  lemma {:induction false} RegionRead(step: CrcStep, img: seq<byte>, p: Plan, k: nat)
    requires IsDisk(step, img, p) && k < 7
    ensures RegionOffset(p, k) + |RegionData(step, p, k)| <= |img|
    ensures Slice(img, RegionOffset(p, k), |RegionData(step, p, k)|) == RegionData(step, p, k)
  {
    hide RegionOffset, RegionData;
    assert Regions(step, p)[k] == Field(RegionOffset(p, k), RegionData(step, p, k));
  }

  // The builder.

  ghost predicate Partial(step: CrcStep, img: seq<byte>, p: Plan, k: nat)
    ensures Partial(step, img, p, k) ==> p.Valid() && |img| == p.TotalBytes()
  {
    p.Valid() && k <= 7 && Written(Zeros(p.TotalBytes()), img, Regions(step, p)[..k])
  }

  lemma {:induction false} PartialNext(step: CrcStep, img: seq<byte>, p: Plan, k: nat)
    requires Partial(step, img, p, k) && k < 7
    ensures RegionOffset(p, k) + |RegionData(step, p, k)| <= |img|
    ensures Partial(step, Splice(img, RegionOffset(p, k), RegionData(step, p, k)), p, k + 1)
    ensures Slice(img, RegionOffset(p, k), |RegionData(step, p, k)|) == Zeros(|RegionData(step, p, k)|)
  {
    hide RegionOffset, RegionData;
    var base, fields := Zeros(p.TotalBytes()), Regions(step, p);
    WrittenNext(base, img, fields, k);
    NotYetWritten(base, img, fields, k, |fields[k].data|);
    assert Slice(base, fields[k].off, |fields[k].data|) == Zeros(|fields[k].data|);
  }

  method Place(step: CrcStep, output: ImageFile, p: Plan, k: nat, data: seq<byte>)
    requires Partial(step, output.data, p, k) && k < 7
    requires output.pos == RegionOffset(p, k) && data == RegionData(step, p, k)
    modifies output
    ensures Partial(step, output.data, p, k + 1) && output.pos == old(output.pos) + |data|
  {
    hide Partial, RegionOffset, RegionData;
    PartialNext(step, output.data, p, k);
    output.Write(data);
  }

  const COPY_BLOCK := 1024 * 1024

  /** Blocks of zeroes are skipped over; the file reads as zeroes there. */
  method CopySparse(content: seq<byte>, output: ImageFile, offset: nat)
    requires offset + |content| <= |output.data| && Slice(output.data, offset, |content|) == Zeros(|content|)
    modifies output
    ensures output.data == Splice(old(output.data), offset, content)
  {
    hide Splice, Zeros;
    ghost var before := output.data;
    output.Seek(offset);
    var done: nat := 0;
    SpliceNothing(before, offset);
    while done < |content|
      invariant done <= |content| && output.pos == offset + done
      invariant output.data == Splice(before, offset, content[..done])
    {
      var next := if done + COPY_BLOCK < |content| then done + COPY_BLOCK else |content|;
      var block := content[done..next];
      SpliceAppend(before, offset, content[..done], block);
      assert content[..done] + block == content[..next];
      if block == Zeros(|block|) {
        ZeroBlock(before, offset, content, done, next);
        output.Skip(|block|);
      } else {
        output.Write(block);
      }
      done := next;
    }
    assert content[..done] == content;
  }

  lemma {:induction false} SpliceNothing(s: seq<byte>, off: nat)
    requires off <= |s|
    ensures Splice(s, off, []) == s
  {
  }

  lemma {:induction false} ZeroBlock(before: seq<byte>, offset: nat, content: seq<byte>, done: nat, next: nat)
    requires offset + |content| <= |before| && Slice(before, offset, |content|) == Zeros(|content|)
    requires done <= next <= |content| && content[done..next] == Zeros(next - done)
    ensures Splice(before, offset, content[..next]) == Splice(before, offset, content[..done])
  {
    var a, b := Splice(before, offset, content[..next]), Splice(before, offset, content[..done]);
    forall i | 0 <= i < |before| ensures a[i] == b[i] {
      if offset + done <= i < offset + next {
        assert content[..next][i - offset] == content[done..next][i - offset - done];
        assert before[i] == Slice(before, offset, |content|)[i - offset];
      }
    }
  }

  method PlaceSparse(step: CrcStep, output: ImageFile, p: Plan, k: nat, content: seq<byte>, offset: nat)
    requires Partial(step, output.data, p, k) && k < 7
    requires offset == RegionOffset(p, k) && content == RegionData(step, p, k)
    modifies output
    ensures Partial(step, output.data, p, k + 1)
  {
    hide Partial, RegionOffset, RegionData;
    PartialNext(step, output.data, p, k);
    CopySparse(content, output, offset);
  }

  /** Every pair of nonempty, sector-aligned images makes a disk, and nothing else does. */
  method Build(step: CrcStep, esp: seq<byte>, data: seq<byte>) returns (r: Result<ImageFile>)
    requires |esp| < MAX_FILE && |data| < MAX_FILE
    ensures r.Ok? <==> GoodInput(esp) && GoodInput(data)
    ensures r.Ok? ==> fresh(r.value) && IsDisk(step, r.value.data, Plan(esp, data))
  {
    hide Partial, IsDisk, Crc, Table, HeaderSector, ProtectiveMbr, HeaderOf;
    if !GoodInput(esp) || !GoodInput(data) {
      return Err;
    }
    var p := Plan(esp, data);
    var output := new ImageFile([]);
    output.Truncate(p.TotalBytes());
    NothingPlaced(step, output.data, p);
    output.Seek(0);
    Place(step, output, p, 0, ProtectiveMbr(p));
    Place(step, output, p, 1, HeaderSector(step, HeaderOf(step, p, true)));
    Place(step, output, p, 2, Table(p));
    PlaceSparse(step, output, p, 3, esp, p.EspFirst() * SECTOR);
    PlaceSparse(step, output, p, 4, data, p.DataFirst() * SECTOR);
    output.Seek(p.BackupTable() * SECTOR);
    Place(step, output, p, 5, Table(p));
    Place(step, output, p, 6, HeaderSector(step, HeaderOf(step, p, false)));
    AllPlaced(step, output.data, p);
    return Ok(output);
  }

  lemma {:induction false} NothingPlaced(step: CrcStep, img: seq<byte>, p: Plan)
    requires p.Valid() && |img| == p.TotalBytes() && forall i :: 0 <= i < |img| ==> img[i] == 0
    ensures Partial(step, img, p, 0)
  {
    hide Regions;
    assert img == Zeros(p.TotalBytes());
    WrittenNothing(img, Regions(step, p));
  }

  lemma {:induction false} AllPlaced(step: CrcStep, img: seq<byte>, p: Plan)
    requires Partial(step, img, p, 7)
    ensures IsDisk(step, img, p)
  {
    hide RegionOffset, RegionData;
    assert Regions(step, p)[..7] == Regions(step, p);
  }
}
