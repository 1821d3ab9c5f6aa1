/**
 The package region of a data image: scripts/mkpackage.py writes it and
 scripts/verify_package.py reads it.
 */
module PackageFormat {
  import opened Bytes
  import opened DiskFile

  const HEADER_LBA := 2048
  const ENTRY_LBA := 2049
  const DATA_LBA := 4096
  const LIMIT_LBA := 786432
  const IMAGE_BYTES := 1024 * 1024 * 1024
  const MAX_ENTRIES := 376
  const MAX_PATH := 255
  /** MAKPKG01 */
  const HEADER_MAGIC: seq<byte> := [77, 65, 75, 80, 75, 71, 48, 49]
  /** MAKFILE4 */
  const ENTRY_MAGIC: seq<byte> := [77, 65, 75, 70, 73, 76, 69, 52]
  /** /packages */
  const PACKAGES: seq<byte> := [47, 112, 97, 99, 107, 97, 103, 101, 115]
  const SLASH := 47

  datatype File = File(path: seq<byte>, content: seq<byte>)

  /** Paths under /packages belong to durable packages. */
  predicate Reserved(path: seq<byte>) {
    path == PACKAGES || PACKAGES + [SLASH] <= path
  }

  predicate GoodPath(path: seq<byte>) {
    0 < |path| <= MAX_PATH && path[0] == SLASH && !Reserved(path)
  }

  function Sectors(size: nat): (r: nat)
    ensures size <= r * SECTOR < size + SECTOR
  {
    (size + SECTOR - 1) / SECTOR
  }

  /** The first sector of file `k`: payloads follow one another. */
  function FirstLba(files: seq<File>, k: nat): (r: nat)
    requires k <= |files|
    ensures DATA_LBA <= r
  {
    if k == 0 then DATA_LBA else FirstLba(files, k - 1) + Sectors(|files[k - 1].content|)
  }

  lemma {:induction false} FirstLbaOrder(files: seq<File>, j: nat, k: nat)
    requires j < k <= |files|
    ensures FirstLba(files, j) + Sectors(|files[j].content|) <= FirstLba(files, k)
    decreases k - j
  {
    if j + 1 < k {
      FirstLbaOrder(files, j, k - 1);
    }
  }

  function EndLba(files: seq<File>): nat {
    FirstLba(files, |files|)
  }

  /** What an installation accepts. */
  ghost predicate GoodFiles(files: seq<File>) {
    && 0 < |files| <= MAX_ENTRIES
    && (forall k :: 0 <= k < |files| ==> GoodPath(files[k].path))
    && (forall j, k :: 0 <= j < k < |files| ==> files[j].path != files[k].path)
    && EndLba(files) <= LIMIT_LBA
  }

  // Records.

  /** A sector whose last word is the checksum of the rest. */
  function Sealed(step: CrcStep, body: seq<byte>): (r: seq<byte>)
    requires |body| == SECTOR
    ensures |r| == SECTOR
  {
    Splice(body, 508, Le(Crc(step, body[..508], 0), 4))
  }

  predicate SealIntact(step: CrcStep, sector: seq<byte>)
    requires |sector| == SECTOR
  {
    FromLe(Slice(sector, 508, 4)) == Crc(step, sector[..508], 0)
  }

  lemma {:induction false} SealedIntact(step: CrcStep, body: seq<byte>)
    requires |body| == SECTOR
    ensures SealIntact(step, Sealed(step, body)) && Sealed(step, body)[..508] == body[..508]
  {
    var crc := Crc(step, body[..508], 0);
    SpliceRead(body, 508, Le(crc, 4));
    assert Sealed(step, body)[..508] == body[..508];
    Pow256Values();
    LeRoundTrip(crc, 4);
  }

  function EntryFields(step: CrcStep, file: File, index: nat, firstLba: nat): (r: seq<Field>)
    requires |file.path| <= MAX_PATH
    ensures |r| == 9 && Apart(r, 508)
  {
    [Field(0, ENTRY_MAGIC), Field(8, Le(|file.path|, 2)), Field(10, Le(1, 2)), Field(12, Le(index, 4)),
     Field(16, Le(|file.content|, 8)), Field(24, Le(firstLba, 8)), Field(32, Le(Sectors(|file.content|), 8)),
     Field(40, Le(Crc(step, file.content, 0), 4)), Field(64, file.path)]
  }

  function EntrySector(step: CrcStep, file: File, index: nat, firstLba: nat): (r: seq<byte>)
    requires |file.path| <= MAX_PATH
    ensures |r| == SECTOR
  {
    Sealed(step, Stamp(Zeros(SECTOR), EntryFields(step, file, index, firstLba)))
  }

  function HeaderFields(count: nat, endLba: nat): (r: seq<Field>)
    ensures |r| == 6 && Apart(r, 508)
  {
    [Field(0, HEADER_MAGIC), Field(8, Le(1, 4)), Field(12, Le(count, 4)),
     Field(16, Le(ENTRY_LBA, 8)), Field(24, Le(DATA_LBA, 8)), Field(32, Le(endLba, 8))]
  }

  function HeaderSector(step: CrcStep, count: nat, endLba: nat): (r: seq<byte>)
    ensures |r| == SECTOR
  {
    Sealed(step, Stamp(Zeros(SECTOR), HeaderFields(count, endLba)))
  }

  // Reading.

  datatype Header = Header(version: nat, count: nat, entryLba: nat, dataLba: nat, endLba: nat)

  function ParseHeader(sector: seq<byte>): Header
    requires |sector| == SECTOR
  {
    Header(FromLe(Slice(sector, 8, 4)), FromLe(Slice(sector, 12, 4)),
           FromLe(Slice(sector, 16, 8)), FromLe(Slice(sector, 24, 8)), FromLe(Slice(sector, 32, 8)))
  }

  datatype Entry = Entry(path: seq<byte>, flags: nat, index: nat, size: nat, firstLba: nat, sectors: nat, crc: nat)

  /** A path longer than the record would be cut at its end, as a slice is. */
  function ParseEntry(sector: seq<byte>): Entry
    requires |sector| == SECTOR
  {
    var n := FromLe(Slice(sector, 8, 2));
    Entry(if 64 + n <= SECTOR then sector[64..64 + n] else sector[64..],
          FromLe(Slice(sector, 10, 2)), FromLe(Slice(sector, 12, 4)),
          FromLe(Slice(sector, 16, 8)), FromLe(Slice(sector, 24, 8)), FromLe(Slice(sector, 32, 8)), FromLe(Slice(sector, 40, 4)))
  }

  /** Every field survives the record's checksum. */
  lemma {:induction false} SealedField(step: CrcStep, fields: seq<Field>, k: nat)
    requires Apart(fields, 508) && k < |fields|
    ensures Inside(fields, SECTOR)
    ensures Slice(Sealed(step, Stamp(Zeros(SECTOR), fields)), fields[k].off, |fields[k].data|) == fields[k].data
  {
    hide Crc, Le;
    var body := Stamp(Zeros(SECTOR), fields);
    StampRead(Zeros(SECTOR), fields, k);
    SpliceFrame(body, 508, Le(Crc(step, body[..508], 0), 4), fields[k].off, |fields[k].data|);
  }

  lemma {:induction false} HeaderRoundTrip(step: CrcStep, count: nat, endLba: nat)
    requires count < 0x1_0000_0000 && endLba < 0x1_0000_0000_0000_0000
    ensures var sector := HeaderSector(step, count, endLba);
            && sector[..8] == HEADER_MAGIC
            && SealIntact(step, sector)
            && ParseHeader(sector) == Header(1, count, ENTRY_LBA, DATA_LBA, endLba)
  {
    hide Le, FromLe, Sealed, SealIntact, Stamp;
    var fields := HeaderFields(count, endLba);
    var sector := HeaderSector(step, count, endLba);
    SealedIntact(step, Stamp(Zeros(SECTOR), fields));
    Pow256Values();
    SealedField(step, fields, 0);
    assert sector[..8] == Slice(sector, 0, 8);
    SealedField(step, fields, 1);
    LeRoundTrip(1, 4);
    SealedField(step, fields, 2);
    LeRoundTrip(count, 4);
    SealedField(step, fields, 3);
    LeRoundTrip(ENTRY_LBA, 8);
    SealedField(step, fields, 4);
    LeRoundTrip(DATA_LBA, 8);
    SealedField(step, fields, 5);
    LeRoundTrip(endLba, 8);
  }

  lemma {:induction false} EntryRoundTrip(step: CrcStep, file: File, index: nat, firstLba: nat)
    requires |file.path| <= MAX_PATH && index < 0x1_0000_0000
    requires firstLba + Sectors(|file.content|) < 0x1_0000_0000
    ensures var sector := EntrySector(step, file, index, firstLba);
            && sector[..8] == ENTRY_MAGIC
            && SealIntact(step, sector)
            && ParseEntry(sector) ==
               Entry(file.path, 1, index, |file.content|, firstLba, Sectors(|file.content|), Crc(step, file.content, 0))
  {
    hide Le, FromLe, Sealed, SealIntact, Stamp, Crc;
    var fields := EntryFields(step, file, index, firstLba);
    var sector := EntrySector(step, file, index, firstLba);
    SealedIntact(step, Stamp(Zeros(SECTOR), fields));
    Pow256Values();
    SealedField(step, fields, 0);
    assert sector[..8] == Slice(sector, 0, 8);
    SealedField(step, fields, 1);
    LeRoundTrip(|file.path|, 2);
    SealedField(step, fields, 2);
    LeRoundTrip(1, 2);
    SealedField(step, fields, 3);
    LeRoundTrip(index, 4);
    SealedField(step, fields, 4);
    LeRoundTrip(|file.content|, 8);
    SealedField(step, fields, 5);
    LeRoundTrip(firstLba, 8);
    SealedField(step, fields, 6);
    LeRoundTrip(Sectors(|file.content|), 8);
    SealedField(step, fields, 7);
    LeRoundTrip(Crc(step, file.content, 0), 4);
    SealedField(step, fields, 8);
  }
}
