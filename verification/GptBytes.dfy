/**
 What mkgpt.py writes beside the two partitions, by its place on the disk.
 */
module GptBytes {
  import opened Bytes
  import opened DiskFile
  import opened Gpt
  import opened GptRead

  /** The last sector. */
  ghost function Last(img: seq<byte>): int {
    |img| / 512 - 1
  }

  /** The two headers name each other, bound the same usable range, and vouch for the same table,
      each for the copy beside it. */
  lemma {:induction false} HeadersSay(step: CrcStep, img: seq<byte>, p: Plan)
    requires IsDisk(step, img, p)
    ensures |img| % 512 == 0 && 34 + 2048 < Last(img)
    ensures Slice(img, 1024, 16384) == Slice(img, (Last(img) - 32) * 512, 16384)
    ensures var crc := Crc(step, Slice(img, 1024, 16384), 0);
            && ParseHeader(Slice(img, 512, 512)) == Header(1, Last(img), 34, Last(img) - 33, 2, crc)
            && ParseHeader(Slice(img, Last(img) * 512, 512)) == Header(Last(img), 1, 34, Last(img) - 33, Last(img) - 32, crc)
  {
    hide IsDisk, Crc, Table, HeaderSector, HeaderIntact, ParseHeader, ProtectiveMbr;
    PlanFits(step, p, true);
    PlanFits(step, p, false);
    HeaderRoundTrip(step, HeaderOf(step, p, true));
    HeaderRoundTrip(step, HeaderOf(step, p, false));
    RegionRead(step, img, p, 1);
    RegionRead(step, img, p, 2);
    RegionRead(step, img, p, 5);
    RegionRead(step, img, p, 6);
  }

  /** `name` in sixteen bits a character. */
  ghost predicate NamedAt(img: seq<byte>, at: nat, name: string) {
    && at + 2 * |name| <= |img|
    && forall i :: 0 <= i < |name| ==> img[at + 2 * i] == name[i] as int && img[at + 2 * i + 1] == 0
  }

  lemma {:induction false} EntryName(kind: seq<byte>, unique: seq<byte>, first: nat, last: nat, name: seq<byte>)
    requires |kind| == |unique| == 16 && |name| <= 72
    ensures Slice(PartitionBytes(kind, unique, first, last, name), 56, |name|) == name
    ensures Slice(PartitionBytes(kind, unique, first, last, name), 48, 8) == Le(0, 8)
  {
    hide Le, Stamp;
    StampRead(Zeros(ENTRY_BYTES), PartitionFields(kind, unique, first, last, name), 4);
    StampRead(Zeros(ENTRY_BYTES), PartitionFields(kind, unique, first, last, name), 5);
  }

  lemma {:induction false} Spelled(img: seq<byte>, at: nat, raw: seq<byte>, name: string)
    requires at + |raw| <= |img| && img[at..at + |raw|] == raw && |raw| == 2 * |name|
    requires forall i :: 0 <= i < |name| ==> raw[2 * i] == name[i] as int && raw[2 * i + 1] == 0
    ensures NamedAt(img, at, name)
  {
    forall i | 0 <= i < |name| ensures img[at + 2 * i] == name[i] as int && img[at + 2 * i + 1] == 0 {
      assert img[at + 2 * i] == img[at..at + |raw|][2 * i];
      assert img[at + 2 * i + 1] == img[at..at + |raw|][2 * i + 1];
    }
  }

  lemma {:induction false} EntryPlace(step: CrcStep, img: seq<byte>, p: Plan)
    requires IsDisk(step, img, p)
    ensures 1024 + 16384 <= |img|
    ensures img[1024..1152] == PartitionBytes(ESP_TYPE, ESP_GUID, p.EspFirst(), p.EspEnd() - 1, ESP_NAME)
    ensures img[1152..1280] == PartitionBytes(MAKOS_DATA_TYPE, DATA_GUID, p.DataFirst(), p.DataEnd() - 1, DATA_NAME)
  {
    hide IsDisk, PartitionBytes, ProtectiveMbr, HeaderSector, Crc;
    RegionRead(step, img, p, 2);
    SliceSlice(img, 1024, 16384, 0, 128);
    SliceSlice(img, 1024, 16384, 128, 128);
  }

  lemma {:induction false} EntrySays(img: seq<byte>, at: nat, kind: seq<byte>, unique: seq<byte>, first: nat, last: nat, raw: seq<byte>, name: string)
    requires |kind| == |unique| == 16 && |raw| <= 72 && first < Pow256(8) && last < Pow256(8) && at + 128 <= |img|
    requires img[at..at + 128] == PartitionBytes(kind, unique, first, last, raw)
    requires |raw| == 2 * |name| && forall i :: 0 <= i < |name| ==> raw[2 * i] == name[i] as int && raw[2 * i + 1] == 0
    ensures img[at + 16..at + 32] == unique && NamedAt(img, at + 56, name)
  {
    hide PartitionBytes, FromLe, Pow256, NamedAt;
    var entry := PartitionBytes(kind, unique, first, last, raw);
    PartitionRoundTrip(kind, unique, first, last, raw);
    EntryName(kind, unique, first, last, raw);
    assert entry == Slice(img, at, 128);
    SliceSlice(img, at, 128, 16, 16);
    SliceSlice(img, at, 128, 56, |raw|);
    Spelled(img, at + 56, raw, name);
  }

  /** The partitions have the names and the identities of the source. */
  lemma {:induction false} NamesSay(step: CrcStep, img: seq<byte>, p: Plan)
    requires IsDisk(step, img, p)
    ensures 1024 + 16384 <= |img|
    ensures img[1024 + 16..1024 + 32] == ESP_GUID && img[1152 + 16..1152 + 32] == DATA_GUID
    ensures NamedAt(img, 1024 + 56, "MakOS ESP") && NamedAt(img, 1152 + 56, "MakOS Data")
  {
    hide IsDisk, PartitionBytes, NamedAt;
    EntryPlace(step, img, p);
    Pow256Values();
    EntrySays(img, 1024, ESP_TYPE, ESP_GUID, p.EspFirst(), p.EspEnd() - 1, ESP_NAME, "MakOS ESP");
    EntrySays(img, 1152, MAKOS_DATA_TYPE, DATA_GUID, p.DataFirst(), p.DataEnd() - 1, DATA_NAME, "MakOS Data");
  }

  /** The protective partition: of type 0xEE, from sector 1 to the last one, or as far as 32 bits
      reach. */
  lemma {:induction false} ProtectiveSays(step: CrcStep, img: seq<byte>, p: Plan)
    requires IsDisk(step, img, p)
    ensures 512 <= |img| && img[450] == 0xEE && img[510] == 0x55 && img[511] == 0xAA
    ensures FromLe(Slice(img, 454, 4)) == 1
    ensures FromLe(Slice(img, 458, 4)) == if Last(img) < 0x1_0000_0000 then Last(img) else 0xFFFF_FFFF
  {
    hide IsDisk, Crc, Table, HeaderSector, Le, FromLe, Stamp;
    var last := if p.BackupHeader() < 0xFFFF_FFFF then p.BackupHeader() else 0xFFFF_FFFF;
    var fields := [Field(450, [0xEE]), Field(454, Le(1, 4)), Field(458, Le(last, 4)), Field(510, [0x55, 0xAA])];
    RegionRead(step, img, p, 0);
    StampRead(Zeros(SECTOR), fields, 0);
    StampRead(Zeros(SECTOR), fields, 1);
    StampRead(Zeros(SECTOR), fields, 2);
    StampRead(Zeros(SECTOR), fields, 3);
    SliceSlice(img, 0, 512, 450, 1);
    SliceSlice(img, 0, 512, 454, 4);
    SliceSlice(img, 0, 512, 458, 4);
    SliceSlice(img, 0, 512, 510, 2);
    assert img[450] == Slice(img, 450, 1)[0];
    assert img[510] == Slice(img, 510, 2)[0] && img[511] == Slice(img, 510, 2)[1];
    Pow256Values();
    LeRoundTrip(1, 4);
    LeRoundTrip(last, 4);
  }
}
