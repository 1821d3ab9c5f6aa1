/**
 A GPT reader that trusts nothing it has not checked, on the disks mkgpt.py builds.
 */
module GptRead {
  import opened Bytes
  import opened DiskFile
  import opened Gpt

  datatype Partition = Partition(kind: seq<byte>, unique: seq<byte>, first: nat, last: nat)

  /** The header checksum is taken with its own field as zero. */
  predicate HeaderIntact(step: CrcStep, sector: seq<byte>)
    requires |sector| == SECTOR
  {
    && sector[..8] == SIGNATURE
    && FromLe(Slice(sector, 8, 4)) == 0x0001_0000
    && FromLe(Slice(sector, 12, 4)) == 92
    && FromLe(Slice(sector, 80, 4)) == ENTRY_COUNT
    && FromLe(Slice(sector, 84, 4)) == ENTRY_BYTES
    && FromLe(Slice(sector, 16, 4)) == Crc(step, Splice(sector, 16, Zeros(4))[..92], 0)
  }

  function ParseHeader(sector: seq<byte>): Header
    requires |sector| == SECTOR
  {
    Header(FromLe(Slice(sector, 24, 8)), FromLe(Slice(sector, 32, 8)), FromLe(Slice(sector, 40, 8)),
           FromLe(Slice(sector, 48, 8)), FromLe(Slice(sector, 72, 8)), FromLe(Slice(sector, 88, 4)))
  }

  /** The partition table behind the header at `lba`, if both are intact. */
  function ReadTable(step: CrcStep, img: seq<byte>, lba: nat): Option<seq<byte>> {
    if (lba + 1) * SECTOR > |img| then None
    else
      var sector := Slice(img, lba * SECTOR, SECTOR);
      if !HeaderIntact(step, sector) then None
      else
        var h := ParseHeader(sector);
        if h.current != lba || h.entriesLba * SECTOR + TABLE_BYTES > |img| then None
        else
          var table := Slice(img, h.entriesLba * SECTOR, TABLE_BYTES);
          if Crc(step, table, 0) == h.entriesCrc then Some(table) else None
  }

  function PartitionAt(table: seq<byte>, k: nat): Partition
    requires |table| == TABLE_BYTES && k < ENTRY_COUNT
  {
    var raw := Slice(table, k * ENTRY_BYTES, ENTRY_BYTES);
    Partition(raw[..16], raw[16..32], FromLe(Slice(raw, 32, 8)), FromLe(Slice(raw, 40, 8)))
  }

  /** The sectors of a partition. */
  function Contents(img: seq<byte>, part: Partition): Option<seq<byte>> {
    if part.first <= part.last && (part.last + 1) * SECTOR <= |img|
    then Some(Slice(img, part.first * SECTOR, (part.last + 1 - part.first) * SECTOR))
    else None
  }

  // Headers read back.

  lemma {:induction false} HeaderField(step: CrcStep, h: Header, k: nat)
    requires k < 13 && k != 3
    ensures var f := HeaderFields(h)[k]; Slice(HeaderSector(step, h), f.off, |f.data|) == f.data
  {
    hide Le, Crc, Stamp;
    var fields, body := HeaderFields(h), HeaderBody(h);
    StampRead(Zeros(SECTOR), fields, k);
    if k < 3 {
      ApartOrder(fields, 92, k, 3);
    } else {
      ApartOrder(fields, 92, 3, k);
    }
    SpliceFrame(body, 16, Le(Crc(step, body[..92], 0), 4), fields[k].off, |fields[k].data|);
  }

  lemma {:induction false} BodyChecksumZero(h: Header)
    ensures Slice(HeaderBody(h), 16, 4) == Zeros(4)
  {
    hide Le, Stamp;
    StampRead(Zeros(SECTOR), HeaderFields(h), 3);
    SliceSlice(HeaderBody(h), 16, 8, 0, 4);
    assert Slice(Zeros(8), 0, 4) == Zeros(4);
  }

  lemma {:induction false} SpliceBack(s: seq<byte>, off: nat, v: seq<byte>, w: seq<byte>)
    requires off + |v| <= |s| && |w| == |v| && Slice(s, off, |v|) == w
    ensures Splice(Splice(s, off, v), off, w) == s
  {
    forall i | 0 <= i < |s| ensures Splice(Splice(s, off, v), off, w)[i] == s[i] {
      if off <= i < off + |v| {
        assert Slice(s, off, |v|)[i - off] == s[i];
      }
    }
  }

  lemma {:induction false} HeaderChecksum(step: CrcStep, h: Header)
    ensures FromLe(Slice(HeaderSector(step, h), 16, 4)) == Crc(step, Splice(HeaderSector(step, h), 16, Zeros(4))[..92], 0)
  {
    hide Crc, HeaderBody, Le, FromLe;
    var body := HeaderBody(h);
    var crc := Crc(step, body[..92], 0);
    BodyChecksumZero(h);
    SpliceBack(body, 16, Le(crc, 4), Zeros(4));
    SpliceRead(body, 16, Le(crc, 4));
    Pow256Values();
    LeRoundTrip(crc, 4);
  }

  ghost predicate Fits(h: Header) {
    && h.current < Pow256(8) && h.backup < Pow256(8) && h.firstUsable < Pow256(8)
    && h.lastUsable < Pow256(8) && h.entriesLba < Pow256(8) && h.entriesCrc < Pow256(4)
  }

  lemma {:induction false} HeaderRoundTrip(step: CrcStep, h: Header)
    requires Fits(h)
    ensures HeaderIntact(step, HeaderSector(step, h)) && ParseHeader(HeaderSector(step, h)) == h
  {
    hide Crc, HeaderSector, Le, FromLe, Splice, Pow256;
    var sector := HeaderSector(step, h);
    HeaderChecksum(step, h);
    Pow256Values();
    HeaderField(step, h, 0);
    assert sector[..8] == Slice(sector, 0, 8);
    HeaderField(step, h, 1);
    LeRoundTrip(0x0001_0000, 4);
    HeaderField(step, h, 2);
    LeRoundTrip(92, 4);
    HeaderField(step, h, 4);
    LeRoundTrip(h.current, 8);
    HeaderField(step, h, 5);
    LeRoundTrip(h.backup, 8);
    HeaderField(step, h, 6);
    LeRoundTrip(h.firstUsable, 8);
    HeaderField(step, h, 7);
    LeRoundTrip(h.lastUsable, 8);
    HeaderField(step, h, 9);
    LeRoundTrip(h.entriesLba, 8);
    HeaderField(step, h, 10);
    LeRoundTrip(ENTRY_COUNT, 4);
    HeaderField(step, h, 11);
    LeRoundTrip(ENTRY_BYTES, 4);
    HeaderField(step, h, 12);
    LeRoundTrip(h.entriesCrc, 4);
  }

  lemma {:induction false} PlanFits(step: CrcStep, p: Plan, primary: bool)
    requires p.Valid()
    ensures Fits(HeaderOf(step, p, primary))
  {
    hide Crc, Table;
    Pow256Values();
  }

  /** Either header leads to the same table. */
  lemma {:induction false} ReadEither(step: CrcStep, img: seq<byte>, p: Plan, primary: bool)
    requires IsDisk(step, img, p)
    ensures ReadTable(step, img, if primary then 1 else p.BackupHeader()) == Some(Table(p))
  {
    hide IsDisk, Crc, Table, HeaderSector, HeaderIntact, ParseHeader, ProtectiveMbr;
    PlanFits(step, p, primary);
    HeaderRoundTrip(step, HeaderOf(step, p, primary));
    RegionRead(step, img, p, if primary then 1 else 6);
    RegionRead(step, img, p, if primary then 2 else 5);
  }

  // The table read back.

  lemma {:induction false} PartitionRoundTrip(kind: seq<byte>, unique: seq<byte>, first: nat, last: nat, name: seq<byte>)
    requires |kind| == |unique| == 16 && |name| <= 72 && first < Pow256(8) && last < Pow256(8)
    ensures var raw := PartitionBytes(kind, unique, first, last, name);
            && raw[..16] == kind && raw[16..32] == unique
            && FromLe(Slice(raw, 32, 8)) == first && FromLe(Slice(raw, 40, 8)) == last
  {
    hide Le, FromLe, Pow256, Stamp;
    var fields, raw := PartitionFields(kind, unique, first, last, name), PartitionBytes(kind, unique, first, last, name);
    StampRead(Zeros(ENTRY_BYTES), fields, 0);
    StampRead(Zeros(ENTRY_BYTES), fields, 1);
    StampRead(Zeros(ENTRY_BYTES), fields, 2);
    StampRead(Zeros(ENTRY_BYTES), fields, 3);
    LeRoundTrip(first, 8);
    LeRoundTrip(last, 8);
    assert raw[..16] == Slice(raw, 0, 16) && raw[16..32] == Slice(raw, 16, 16);
  }

  lemma {:induction false} TablePartitions(p: Plan)
    requires p.Valid()
    ensures PartitionAt(Table(p), 0) == Partition(ESP_TYPE, ESP_GUID, p.EspFirst(), p.EspEnd() - 1)
    ensures PartitionAt(Table(p), 1) == Partition(MAKOS_DATA_TYPE, DATA_GUID, p.DataFirst(), p.DataEnd() - 1)
    ensures forall k :: 2 <= k < ENTRY_COUNT ==> Slice(Table(p), k * ENTRY_BYTES, ENTRY_BYTES) == Zeros(ENTRY_BYTES)
  {
    hide PartitionBytes, FromLe;
    Pow256Values();
    PartitionRoundTrip(ESP_TYPE, ESP_GUID, p.EspFirst(), p.EspEnd() - 1, ESP_NAME);
    PartitionRoundTrip(MAKOS_DATA_TYPE, DATA_GUID, p.DataFirst(), p.DataEnd() - 1, DATA_NAME);
    assert Slice(Table(p), 0, ENTRY_BYTES) == PartitionBytes(ESP_TYPE, ESP_GUID, p.EspFirst(), p.EspEnd() - 1, ESP_NAME);
    assert Slice(Table(p), ENTRY_BYTES, ENTRY_BYTES)
        == PartitionBytes(MAKOS_DATA_TYPE, DATA_GUID, p.DataFirst(), p.DataEnd() - 1, DATA_NAME);
  }

  /** From the first sector's header or from the last one's, a checking reader of any built disk
      finds the same two partitions, apart and inside the usable range, holding exactly the images,
      and no other partition. */
  lemma {:induction false} DiskReadsBack(step: CrcStep, img: seq<byte>, p: Plan)
    requires IsDisk(step, img, p)
    ensures |img| % SECTOR == 0
    ensures ReadTable(step, img, 1) == ReadTable(step, img, |img| / SECTOR - 1) == Some(Table(p))
    ensures var esp, data := PartitionAt(Table(p), 0), PartitionAt(Table(p), 1);
            && esp.kind == ESP_TYPE && data.kind == MAKOS_DATA_TYPE
            && Contents(img, esp) == Some(p.esp) && Contents(img, data) == Some(p.data)
            && 2 + ENTRY_SECTORS <= esp.first && esp.last < data.first && data.last < p.BackupTable()
            && esp.first % ALIGN_LBA == 0 && data.first % ALIGN_LBA == 0
    ensures forall k :: 2 <= k < ENTRY_COUNT ==> Slice(Table(p), k * ENTRY_BYTES, ENTRY_BYTES) == Zeros(ENTRY_BYTES)
  {
    hide IsDisk, Table, ReadTable, PartitionAt, HeaderSector, ProtectiveMbr, Crc;
    ReadEither(step, img, p, true);
    ReadEither(step, img, p, false);
    TablePartitions(p);
    RegionRead(step, img, p, 3);
    RegionRead(step, img, p, 4);
  }
}
