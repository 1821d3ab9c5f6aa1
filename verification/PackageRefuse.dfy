/**
 What the package verifier refuses: the image it accepts, byte by byte, and every kind of damage to
 an installed package.
 */
module PackageRefuse {
  import opened Bytes
  import opened DiskFile
  import opened PackageFormat
  import opened PackageInstall
  import opened PackageVerify

  /** The last word of a sector is the checksum of the bytes before it. */
  ghost predicate SealedAt(step: CrcStep, img: seq<byte>, at: nat)
    requires at + 512 <= |img|
  {
    Num(img, at + 508, 4) == Crc(step, img[at..at + 508], 0)
  }

  /** Sector 2048: magic, seal, version, count and bounds. */
  ghost predicate SoundHeader(step: CrcStep, img: seq<byte>)
    requires 0x4000_0000 <= |img|
  {
    && img[0x10_0000..0x10_0008] == [77, 65, 75, 80, 75, 71, 48, 49]
    && SealedAt(step, img, 0x10_0000)
    && Num(img, 0x10_0008, 4) == 1
    && Count(img) <= 376
    && Num(img, 0x10_0010, 8) == 2049
    && Num(img, 0x10_0018, 8) == 4096
    && End(img) <= 786432 && End(img) * 512 <= |img|
  }

  ghost function Count(img: seq<byte>): nat
    requires 0x4000_0000 <= |img|
  {
    Num(img, 0x10_000C, 4)
  }

  ghost function End(img: seq<byte>): nat
    requires 0x4000_0000 <= |img|
  {
    Num(img, 0x10_0020, 8)
  }

  ghost function Record(k: nat): nat {
    (2049 + k) * 512
  }

  /** A path's length may reach past its record; it is cut there. */
  ghost function Path(img: seq<byte>, k: nat): seq<byte>
    requires Record(k) + 512 <= |img|
  {
    var length := Num(img, Record(k) + 8, 2);
    img[Record(k) + 64..Record(k) + if length <= 448 then 64 + length else 512]
  }

  ghost predicate SoundPath(path: seq<byte>) {
    path != [] && path[0] == 47 && path != PACKAGES && !(PACKAGES + [47] <= path)
  }

  /** Record `k`: magic, seal, flags, index, path, bounds, and its payload's checksum. */
  ghost predicate SoundRecord(step: CrcStep, img: seq<byte>, k: nat)
    requires Record(k) + 512 <= |img| && 0x4000_0000 <= |img|
  {
    var r := Record(k);
    var size, first, sectors := Num(img, r + 16, 8), Num(img, r + 24, 8), Num(img, r + 32, 8);
    && img[r..r + 8] == [77, 65, 75, 70, 73, 76, 69, 52]
    && SealedAt(step, img, r)
    && Num(img, r + 10, 2) == 1
    && Num(img, r + 12, 4) == k
    && SoundPath(Path(img, k))
    && size <= sectors * 512 < size + 512
    && 4096 <= first && first + sectors <= End(img)
    && first * 512 + size <= |img|
    && Crc(step, img[first * 512..first * 512 + size], 0) == Num(img, r + 40, 4)
  }

  ghost predicate Sound(step: CrcStep, img: seq<byte>) {
    && 0x4000_0000 <= |img|
    && SoundHeader(step, img)
    && (forall k :: 0 <= k < Count(img) ==> SoundRecord(step, img, k))
    && (forall j, k :: 0 <= j < k < Count(img) ==> Path(img, j) != Path(img, k))
  }

  // The verifier's own readings agree.

  lemma {:induction false} FieldIs(img: seq<byte>, lba: nat, off: nat, n: nat)
    requires (lba + 1) * SECTOR <= |img| && off + n <= SECTOR
    ensures Slice(SectorAt(img, lba), off, n) == img[lba * 512 + off..lba * 512 + off + n]
    ensures FromLe(Slice(SectorAt(img, lba), off, n)) == Num(img, lba * 512 + off, n)
  {
    hide FromLe;
    SliceSlice(img, lba * SECTOR, SECTOR, off, n);
  }

  lemma {:induction false} SealIs(step: CrcStep, img: seq<byte>, lba: nat)
    requires (lba + 1) * SECTOR <= |img|
    ensures SealIntact(step, SectorAt(img, lba)) <==> SealedAt(step, img, lba * 512)
  {
    hide FromLe, Crc, SectorAt, Num;
    FieldIs(img, lba, 508, 4);
    FieldIs(img, lba, 0, 508);
    assert SectorAt(img, lba)[..508] == Slice(SectorAt(img, lba), 0, 508);
  }

  lemma {:induction false} HeaderIs(step: CrcStep, img: seq<byte>)
    requires IMAGE_BYTES <= |img|
    ensures HeaderOk(step, img) <==> SoundHeader(step, img)
    ensures HeaderOf(img).count == Count(img) && HeaderOf(img).endLba == End(img)
  {
    hide FromLe, Crc, SectorAt, Num, SealIntact, SealedAt;
    SealIs(step, img, HEADER_LBA);
    FieldIs(img, HEADER_LBA, 0, 8);
    assert SectorAt(img, HEADER_LBA)[..8] == Slice(SectorAt(img, HEADER_LBA), 0, 8);
    FieldIs(img, HEADER_LBA, 8, 4);
    FieldIs(img, HEADER_LBA, 12, 4);
    FieldIs(img, HEADER_LBA, 16, 8);
    FieldIs(img, HEADER_LBA, 24, 8);
    FieldIs(img, HEADER_LBA, 32, 8);
  }

  /** Each field of a record, where it stands. */
  lemma {:induction false} EntryIs(img: seq<byte>, k: nat)
    requires IMAGE_BYTES <= |img| && k <= MAX_ENTRIES
    ensures Record(k) + 512 <= |img|
    ensures var r := Record(k);
            EntryOf(img, k) == Entry(Path(img, k), Num(img, r + 10, 2), Num(img, r + 12, 4), Num(img, r + 16, 8),
                                     Num(img, r + 24, 8), Num(img, r + 32, 8), Num(img, r + 40, 4))
  {
    hide FromLe, SectorAt, Num;
    var lba := ENTRY_LBA + k;
    FieldIs(img, lba, 8, 2);
    FieldIs(img, lba, 10, 2);
    FieldIs(img, lba, 12, 4);
    FieldIs(img, lba, 16, 8);
    FieldIs(img, lba, 24, 8);
    FieldIs(img, lba, 32, 8);
    FieldIs(img, lba, 40, 4);
    var length := Num(img, Record(k) + 8, 2);
    var kept := if length <= 448 then length else 448;
    FieldIs(img, lba, 64, kept);
    var sector := SectorAt(img, lba);
    assert Slice(sector, 64, kept) == if 64 + length <= SECTOR then sector[64..64 + length] else sector[64..];
  }

  lemma {:induction false} SectorsIs(size: nat, sectors: nat)
    ensures sectors == Sectors(size) <==> size <= sectors * 512 < size + 512
  {
  }

  lemma {:induction false} RecordIs(step: CrcStep, img: seq<byte>, k: nat)
    requires IMAGE_BYTES <= |img| && k < MAX_ENTRIES && End(img) * 512 <= |img|
    ensures Record(k) + 512 <= |img|
    ensures EntryOk(step, img, End(img), k) <==> SoundRecord(step, img, k)
  {
    hide FromLe, Crc, SectorAt, Num, SealIntact, SealedAt, EntryOf, Path, Sectors, End;
    EntryIs(img, k);
    SealIs(step, img, ENTRY_LBA + k);
    FieldIs(img, ENTRY_LBA + k, 0, 8);
    assert SectorAt(img, ENTRY_LBA + k)[..8] == Slice(SectorAt(img, ENTRY_LBA + k), 0, 8);
    var e := EntryOf(img, k);
    SectorsIs(e.size, e.sectors);
  }

  /** The verifier accepts exactly the images whose header and records are sound, with no path twice. */
  lemma {:induction false} VerifiedExactly(step: CrcStep, img: seq<byte>)
    ensures Verified(step, img) <==> Sound(step, img)
  {
    hide FromLe, Crc, EntryOk, HeaderOf, HeaderOk, SoundHeader, SoundRecord, EntryOf, Path;
    if IMAGE_BYTES <= |img| {
      HeaderIs(step, img);
      if HeaderOk(step, img) {
        HeaderBounded(step, img);
        forall k | 0 <= k < Count(img)
          ensures EntryOk(step, img, End(img), k) <==> SoundRecord(step, img, k)
          ensures EntryOf(img, k).path == Path(img, k)
        {
          RecordIs(step, img, k);
          EntryIs(img, k);
        }
      }
    }
  }

  lemma {:induction false} HeaderBounded(step: CrcStep, img: seq<byte>)
    requires IMAGE_BYTES <= |img| && SoundHeader(step, img)
    ensures Count(img) <= MAX_ENTRIES && End(img) * 512 <= |img|
  {
  }

  // Damage.

  /** The images differ at most in the stretch. */
  ghost predicate DiffersWithin(img: seq<byte>, damaged: seq<byte>, at: nat, n: nat) {
    |img| == |damaged| && forall i :: 0 <= i < |img| && !(at <= i < at + n) ==> img[i] == damaged[i]
  }

  lemma {:induction false} SameSector(img: seq<byte>, damaged: seq<byte>, at: nat, n: nat, lba: nat)
    requires DiffersWithin(img, damaged, at, n) && (lba + 1) * SECTOR <= |img|
    requires (lba + 1) * SECTOR <= at || at + n <= lba * SECTOR
    ensures SectorAt(img, lba) == SectorAt(damaged, lba)
  {
  }

  /** A payload whose checksum has changed is refused. */
  lemma {:induction false} DamagedPayload(step: CrcStep, base: seq<byte>, img: seq<byte>, files: seq<File>, damaged: seq<byte>, k: nat)
    requires IsPackage(step, base, img, files) && k < |files|
    requires DiffersWithin(img, damaged, PayloadOffset(files, k), |files[k].content|)
    requires PayloadOffset(files, k) + |files[k].content| <= |img|
    requires Crc(step, Slice(damaged, PayloadOffset(files, k), |files[k].content|), 0) != Crc(step, files[k].content, 0)
    ensures !Verified(step, damaged)
  {
    hide Crc, IsPackage, SectorAt, EntryOk, HeaderOk, FirstLba, SealIntact, FromLe;
    InstalledHeader(step, base, img, files);
    InstalledEntry(step, base, img, files, k);
    SameSector(img, damaged, PayloadOffset(files, k), |files[k].content|, HEADER_LBA);
    SameSector(img, damaged, PayloadOffset(files, k), |files[k].content|, ENTRY_LBA + k);
    if Verified(step, damaged) {
      PayloadChecked(step, damaged, k);
    }
  }

  lemma {:induction false} PayloadChecked(step: CrcStep, img: seq<byte>, k: nat)
    requires Verified(step, img) && k < HeaderOf(img).count
    ensures var e := EntryOf(img, k);
            e.firstLba * SECTOR + e.size <= |img| && Crc(step, Slice(img, e.firstLba * SECTOR, e.size), 0) == e.crc
  {
    hide Crc, SealIntact, EntryOf, ParseHeader, SectorAt;
    assert EntryOk(step, img, HeaderOf(img).endLba, k);
  }

  /** So is a record, or the header, whose bytes no longer match its checksum. */
  lemma {:induction false} DamagedRecord(step: CrcStep, base: seq<byte>, img: seq<byte>, files: seq<File>, damaged: seq<byte>, k: nat)
    requires IsPackage(step, base, img, files) && k < |files|
    requires DiffersWithin(img, damaged, Record(k), 512)
    requires Record(k) + 512 <= |damaged| && !SealedAt(step, damaged, Record(k))
    ensures !Verified(step, damaged)
  {
    hide IsPackage, SealedAt, SoundHeader, FromLe, SectorAt;
    InstalledHeader(step, base, img, files);
    SameSector(img, damaged, Record(k), 512, HEADER_LBA);
    HeaderIs(step, damaged);
    VerifiedExactly(step, damaged);
    assert Count(damaged) == |files|;
    assert Sound(step, damaged) ==> SoundRecord(step, damaged, k);
  }

  lemma {:induction false} DamagedHeader(step: CrcStep, damaged: seq<byte>)
    requires 0x4000_0000 <= |damaged| && !SealedAt(step, damaged, 0x10_0000)
    ensures !Verified(step, damaged)
  {
    VerifiedExactly(step, damaged);
  }

  /** So are a record out of its place, a path given twice, and a payload past the end. */
  lemma {:induction false} FaultyRecord(step: CrcStep, img: seq<byte>, j: nat, k: nat)
    requires 0x4000_0000 <= |img| && j <= k < Count(img) && Record(k) + 512 <= |img|
    requires || Num(img, Record(k) + 12, 4) != k
             || (j < k && Path(img, j) == Path(img, k))
             || Num(img, Record(k) + 24, 8) + Num(img, Record(k) + 32, 8) > End(img)
    ensures !Verified(step, img)
  {
    hide SealedAt, SoundHeader, Num, Path;
    VerifiedExactly(step, img);
    assert Sound(step, img) ==> SoundRecord(step, img, k);
  }

  // What an installation refuses.

  /** A path may be packaged exactly if it has 1 to 255 bytes, begins with a slash, and is not
      "/packages" or below it. */
  lemma {:induction false} PathExactly(path: seq<byte>)
    ensures GoodPath(path) <==>
            && 1 <= |path| <= 255 && path[0] == 47
            && !(9 <= |path| && path[..9] == [47, 112, 97, 99, 107, 97, 103, 101, 115] && (|path| == 9 || path[9] == 47))
  {
  }
}
