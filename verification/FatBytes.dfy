/**
 What mkfat.py writes, byte by byte where the format fixes the bytes.
 */
module FatBytes {
  import opened Bytes
  import opened FatFormat
  import opened FatImage
  import opened FatRead

  /** The image holds each field, counted from `at`. */
  ghost predicate Has(img: seq<byte>, at: nat, fields: seq<Field>) {
    forall n :: 0 <= n < |fields| ==>
      at + fields[n].off + |fields[n].data| <= |img| && Slice(img, at + fields[n].off, |fields[n].data|) == fields[n].data
  }

  lemma {:induction false} RegionHas(img: seq<byte>, c: Contents, k: nat, fields: seq<Field>)
    requires IsImage(img, c) && k < 4 && Apart(fields, SECTOR) && RegionData(c, k) == Stamp(Zeros(SECTOR), fields)
    ensures Has(img, RegionOffset(c, k), fields)
  {
    hide IsImage, Stamp, Apart;
    RegionRead(img, c, k);
    forall n | 0 <= n < |fields|
      ensures RegionOffset(c, k) + fields[n].off + |fields[n].data| <= |img|
      ensures Slice(img, RegionOffset(c, k) + fields[n].off, |fields[n].data|) == fields[n].data
    {
      FieldOfSlice(img, RegionOffset(c, k), Zeros(SECTOR), fields, n);
    }
  }

  lemma {:induction false} LeNext(a: byte, v: nat, n: nat)
    ensures Le(a + 256 * v, n + 1) == [a] + Le(v, n)
  {
  }

  lemma {:induction false} Word(a: byte, b: byte)
    ensures Le(a + 256 * b, 2) == [a, b]
  {
    LeNext(a, b, 1);
    LeNext(b, 0, 0);
  }

  lemma {:induction false} DoubleWord(a: byte, b: byte, c: byte, d: byte)
    ensures Le(a + 256 * (b + 256 * (c + 256 * d)), 4) == [a, b, c, d]
  {
    LeNext(a, b + 256 * (c + 256 * d), 3);
    LeNext(b, c + 256 * d, 2);
    Word(c, d);
  }

  lemma {:induction false} BootHas(img: seq<byte>, c: Contents, at: nat)
    requires IsImage(img, c) && (at == 0 || at == 6 * 512)
    ensures Has(img, at, ParameterFields(131072, 1024)) && Has(img, at, NameFields())
  {
    hide IsImage, ParameterFields, NameFields, Stamp, Apart;
    var fields := BootFields(TOTAL_SECTORS, FAT_SECTORS);
    RegionHas(img, c, if at == 0 then 0 else 2, fields);
    var a, b := ParameterFields(131072, 1024), NameFields();
    assert fields == a + b;
    assert forall n :: 0 <= n < |a| ==> fields[n] == a[n];
    assert forall n :: 0 <= n < |b| ==> fields[|a| + n] == b[n];
  }

  /** 512 bytes to a sector and one sector to a cluster, 32 reserved sectors, two FATs of 1024
      sectors each, 131072 sectors in all, the root in cluster 2, the information in sector 1 and
      the copy in sector 6. */
  const PARAMETERS: seq<Field> := [
    Field(0, [0xEB, 0x58, 0x90]), Field(3, [77, 65, 75, 79, 83, 32, 32, 32]), Field(11, [0, 2]), Field(13, [1]),
    Field(14, [32, 0]), Field(16, [2]), Field(17, [0, 0, 0, 0]), Field(21, [0xF8]), Field(22, [0, 0]),
    Field(24, [63, 0]), Field(26, [255, 0]), Field(28, [0, 0, 0, 0]), Field(32, [0, 0, 2, 0]),
    Field(36, [0, 4, 0, 0]), Field(40, [0, 0, 0, 0]), Field(44, [2, 0, 0, 0]), Field(48, [1, 0]), Field(50, [6, 0])]

  /** The boot sector, and its copy in sector 6. */
  lemma {:induction false} BootBytes(img: seq<byte>, c: Contents, at: nat)
    requires IsImage(img, c) && (at == 0 || at == 6 * 512)
    ensures Has(img, at, PARAMETERS)
  {
    hide IsImage, Has, Le;
    Word(0, 2);
    Word(32, 0);
    Word(0, 0);
    Word(63, 0);
    Word(255, 0);
    Word(1, 0);
    Word(6, 0);
    DoubleWord(0, 0, 0, 0);
    DoubleWord(0, 0, 2, 0);
    DoubleWord(0, 4, 0, 0);
    DoubleWord(2, 0, 0, 0);
    BootHas(img, c, at);
    var zeros: seq<byte> := [0, 0];
    assert zeros + zeros == [0, 0, 0, 0];
    assert ParameterFields(131072, 1024) == PARAMETERS;
  }

  /** The names and signatures of the boot sector and its copy. */
  lemma {:induction false} BootNames(img: seq<byte>, c: Contents, at: nat)
    requires IsImage(img, c) && (at == 0 || at == 6 * 512)
    ensures Has(img, at, [
      Field(64, [0x80]), Field(66, [0x29]), Field(67, [77, 75, 79, 83]),
      Field(71, [77, 65, 75, 79, 83, 32, 32, 32, 32, 32, 32]), Field(82, [70, 65, 84, 51, 50, 32, 32, 32]),
      Field(510, [0x55, 0xAA])])
  {
    hide IsImage, Has, Le;
    DoubleWord(77, 75, 79, 83);
    BootHas(img, c, at);
  }

  /** The information sector and its copy in sector 7: the free count unknown, and cluster 5 the
      place to look for more. */
  lemma {:induction false} InfoBytes(img: seq<byte>, c: Contents, at: nat)
    requires IsImage(img, c) && (at == 512 || at == 7 * 512)
    ensures Has(img, at, [
      Field(0, [82, 82, 97, 65]), Field(484, [114, 114, 65, 97]), Field(488, [255, 255, 255, 255]),
      Field(492, [5, 0, 0, 0]), Field(508, [0, 0, 0x55, 0xAA])])
  {
    hide IsImage, Has, Le, Stamp;
    DoubleWord(82, 82, 97, 65);
    DoubleWord(114, 114, 65, 97);
    DoubleWord(255, 255, 255, 255);
    DoubleWord(5, 0, 0, 0);
    DoubleWord(0, 0, 0x55, 0xAA);
    RegionHas(img, c, if at == 512 then 1 else 3, InfoFields());
  }

  // The directories, from byte 1064960 on: cluster 2 is the root, cluster 3 EFI and cluster 4 BOOT.

  ghost function Spelled(name: string): (r: seq<byte>)
    requires forall i :: 0 <= i < |name| ==> name[i] < 128 as char
    ensures |r| == |name| && forall i :: 0 <= i < |name| ==> r[i] == name[i] as int
  {
    seq(|name|, i requires 0 <= i < |name| => name[i] as int)
  }

  lemma {:induction false} Names()
    ensures LABEL == Spelled("MAKOS      ") && EFI == Spelled("EFI        ") && BOOT == Spelled("BOOT       ")
    ensures KERNEL_ELF == Spelled("KERNEL  ELF") && MAKOS_CFG == Spelled("MAKOS   CFG")
    ensures DOT == Spelled(".          ") && DOT_DOT == Spelled("..         ")
    ensures BOOTX64_EFI == Spelled("BOOTX64 EFI") && BOOTAA64_EFI == Spelled("BOOTAA64EFI")
  {
  }

  ghost function EntryAt(img: seq<byte>, k: nat): DirEntry
    requires 1064960 + 32 * k + 32 <= |img|
  {
    ParseEntry(Slice(img, 1064960 + 32 * k, 32))
  }

  lemma {:induction false} ClusterEntry(img: seq<byte>, cluster: nat, entries: seq<seq<byte>>, n: nat)
    requires |img| == IMAGE_BYTES && 2 <= cluster <= 4 && HasCluster(img, GEOMETRY, cluster) && n < |entries| <= 4
    requires Holds(Cluster(img, GEOMETRY, cluster), entries)
    ensures EntryAt(img, 16 * (cluster - 2) + n) == ParseEntry(entries[n])
  {
    hide ParseEntry;
    SliceSlice(img, ClusterOffset(GEOMETRY, cluster), SECTOR, n * 32, 32);
  }

  /** The root: the volume's name, the EFI directory, the kernel and the configuration. */
  lemma {:induction false} RootBytes(img: seq<byte>, c: Contents)
    requires IsImage(img, c)
    ensures EntryAt(img, 0) == DirEntry(LABEL, 0x08, 0, 0)
    ensures EntryAt(img, 1) == DirEntry(EFI, 0x10, 3, 0)
    ensures EntryAt(img, 2) == DirEntry(KERNEL_ELF, 0x20, c.KernelStart(), |c.kernel|)
    ensures EntryAt(img, 3) == DirEntry(MAKOS_CFG, 0x20, c.ConfigStart(), |c.config|)
  {
    hide IsImage, ParseEntry, EntryBytes, Holds, Cluster, EntryAt;
    RootHolds(img, c);
    forall n | 0 <= n < 4 ensures EntryAt(img, n) == RootEntry(c, n) {
      ClusterEntry(img, 2, RootEntries(c), n);
      RootParsed(c, n);
    }
  }

  /** Each of the other directories begins with itself and its parent. */
  lemma {:induction false} SubdirectoryBytes(img: seq<byte>, c: Contents)
    requires IsImage(img, c)
    ensures EntryAt(img, 16) == DirEntry(DOT, 0x10, 3, 0) && EntryAt(img, 17) == DirEntry(DOT_DOT, 0x10, 2, 0)
    ensures EntryAt(img, 18) == DirEntry(BOOT, 0x10, 4, 0)
    ensures EntryAt(img, 32) == DirEntry(DOT, 0x10, 4, 0) && EntryAt(img, 33) == DirEntry(DOT_DOT, 0x10, 3, 0)
    ensures EntryAt(img, 34) == DirEntry(if c.arm then BOOTAA64_EFI else BOOTX64_EFI, 0x20, 5, |c.loader|)
  {
    hide IsImage, ParseEntry, EntryBytes, Holds, Cluster, EntryAt;
    EfiHolds(img, c);
    BootHolds(img, c);
    var efi := SubEntries(3, 2, EntryBytes(BOOT, 0x10, 4, 0));
    var boot := SubEntries(4, 3, EntryBytes(c.LoaderName(), 0x20, c.LoaderStart(), |c.loader|));
    ClusterEntry(img, 3, efi, 0);
    ClusterEntry(img, 3, efi, 1);
    ClusterEntry(img, 3, efi, 2);
    ClusterEntry(img, 4, boot, 0);
    ClusterEntry(img, 4, boot, 1);
    ClusterEntry(img, 4, boot, 2);
    EntryRoundTrip(DOT, 0x10, 3, 0);
    EntryRoundTrip(DOT_DOT, 0x10, 2, 0);
    EntryRoundTrip(BOOT, 0x10, 4, 0);
    EntryRoundTrip(DOT, 0x10, 4, 0);
    EntryRoundTrip(DOT_DOT, 0x10, 3, 0);
    EntryRoundTrip(c.LoaderName(), 0x20, c.LoaderStart(), |c.loader|);
  }
}
