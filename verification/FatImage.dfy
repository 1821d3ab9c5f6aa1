/**
 The image mkfat.py lays out, region by region, and what a FAT32 reader finds in it.
 */
module FatImage {
  import opened Bytes
  import opened FatFormat

  const TOTAL_SECTORS := IMAGE_BYTES / SECTOR
  const FAT_SECTORS := 1024
  const CLUSTERS := TOTAL_SECTORS - RESERVED_SECTORS - FAT_COUNT * FAT_SECTORS
  const GEOMETRY := Geometry(RESERVED_SECTORS, FAT_SECTORS, 2)

  // Names as directory entries hold them: eight characters and three.
  const EFI: seq<byte> := [69, 70, 73, 32, 32, 32, 32, 32, 32, 32, 32]
  const BOOT: seq<byte> := [66, 79, 79, 84, 32, 32, 32, 32, 32, 32, 32]
  const KERNEL_ELF: seq<byte> := [75, 69, 82, 78, 69, 76, 32, 32, 69, 76, 70]
  const MAKOS_CFG: seq<byte> := [77, 65, 75, 79, 83, 32, 32, 32, 67, 70, 71]
  const DOT: seq<byte> := [46, 32, 32, 32, 32, 32, 32, 32, 32, 32, 32]
  const DOT_DOT: seq<byte> := [46, 46, 32, 32, 32, 32, 32, 32, 32, 32, 32]
  const LABEL: seq<byte> := [77, 65, 75, 79, 83, 32, 32, 32, 32, 32, 32]
  const BOOTX64_EFI: seq<byte> := [66, 79, 79, 84, 88, 54, 52, 32, 69, 70, 73]
  const BOOTAA64_EFI: seq<byte> := [66, 79, 79, 84, 65, 65, 54, 52, 69, 70, 73]

  /** What goes into an image. */
  datatype Contents = Contents(arm: bool, loader: seq<byte>, kernel: seq<byte>, config: seq<byte>)
  {
    function LoaderName(): (r: seq<byte>)
      ensures |r| == 11 && r[0] == 66
    {
      if arm then BOOTAA64_EFI else BOOTX64_EFI
    }

    function LoaderStart(): nat { 5 }
    function KernelStart(): nat { LoaderStart() + Clusters(|loader|) }
    function ConfigStart(): nat { KernelStart() + Clusters(|kernel|) }
    function End(): nat { ConfigStart() + Clusters(|config|) }

    /** The test mkfat makes before writing. */
    predicate Fits() {
      End() < CLUSTERS + 2
    }

    /** The FAT entry of each cluster: one chain for each file, one cluster for each directory. */
    function FatValue(cluster: nat): (r: nat)
    {
      if cluster == 0 then 0x0FFFFFF8
      else if cluster < 5 then EOC
      else if cluster < KernelStart() then Link(cluster, KernelStart())
      else if cluster < ConfigStart() then Link(cluster, ConfigStart())
      else if cluster < End() then Link(cluster, End())
      else 0
    }
  }

  /** An empty file still owns a cluster. */
  function Clusters(length: nat): (r: nat)
    ensures 1 <= r && length <= r * SECTOR
  {
    if length == 0 then 1 else (length + SECTOR - 1) / SECTOR
  }

  function Link(cluster: nat, end: nat): nat {
    if cluster + 1 == end then EOC else cluster + 1
  }

  function FatTable(c: Contents): (r: seq<byte>)
    ensures |r| == FAT_SECTORS * SECTOR
  {
    seq(FAT_SECTORS * SECTOR, i requires 0 <= i => Le(c.FatValue(i / 4), 4)[i % 4])
  }

  function EntryFields(name: seq<byte>, attributes: byte, cluster: nat, size: nat): (r: seq<Field>)
    requires |name| == 11
    ensures Apart(r, 32)
  {
    [Field(0, name), Field(11, [attributes]),
     Field(20, Le(cluster / 0x1_0000 % 0x1_0000, 2)), Field(26, Le(cluster % 0x1_0000, 2)), Field(28, Le(size, 4))]
  }

  function EntryBytes(name: seq<byte>, attributes: byte, cluster: nat, size: nat): (r: seq<byte>)
    requires |name| == 11
    ensures |r| == 32
  {
    Stamp(Zeros(32), EntryFields(name, attributes, cluster, size))
  }

  lemma {:induction false} EntryRoundTrip(name: seq<byte>, attributes: byte, cluster: nat, size: nat)
    requires |name| == 11 && cluster < 0x1_0000_0000 && size < 0x1_0000_0000
    ensures ParseEntry(EntryBytes(name, attributes, cluster, size)) == DirEntry(name, attributes, cluster, size)
    ensures EntryBytes(name, attributes, cluster, size)[0] == name[0]
  {
    hide Le, FromLe, Stamp;
    var fields := EntryFields(name, attributes, cluster, size);
    var raw := Stamp(Zeros(32), fields);
    Pow256Values();
    StampRead(Zeros(32), fields, 0);
    StampRead(Zeros(32), fields, 1);
    StampRead(Zeros(32), fields, 2);
    StampRead(Zeros(32), fields, 3);
    StampRead(Zeros(32), fields, 4);
    LeRoundTrip(cluster / 0x1_0000 % 0x1_0000, 2);
    LeRoundTrip(cluster % 0x1_0000, 2);
    LeRoundTrip(size, 4);
    assert raw[..11] == Slice(raw, 0, 11);
    assert raw[11] == Slice(raw, 11, 1)[0];
    assert raw[0] == Slice(raw, 0, 11)[0];
  }

  // Directories.

  function RootDirectory(c: Contents): (r: seq<byte>)
    ensures |r| == 128
  {
    EntryBytes(LABEL, 0x08, 0, 0) + EntryBytes(EFI, 0x10, 3, 0)
    + EntryBytes(KERNEL_ELF, 0x20, c.KernelStart(), |c.kernel|) + EntryBytes(MAKOS_CFG, 0x20, c.ConfigStart(), |c.config|)
  }

  function EfiDirectory(): (r: seq<byte>)
    ensures |r| == 96
  {
    EntryBytes(DOT, 0x10, 3, 0) + EntryBytes(DOT_DOT, 0x10, 2, 0) + EntryBytes(BOOT, 0x10, 4, 0)
  }

  function BootDirectory(c: Contents): (r: seq<byte>)
    ensures |r| == 96
  {
    EntryBytes(DOT, 0x10, 4, 0) + EntryBytes(DOT_DOT, 0x10, 3, 0)
    + EntryBytes(c.LoaderName(), 0x20, c.LoaderStart(), |c.loader|)
  }

  // The boot and information sectors.

  function BootFields(total: nat, fatSectors: nat): (r: seq<Field>)
    ensures Apart(r, SECTOR)
    ensures |r| == 24
  {
    var a := ParameterFields(total, fatSectors);
    ApartJoin(a, NameFields(), 52, SECTOR);
    a + NameFields()
  }

  function NameFields(): (r: seq<Field>)
    ensures Apart(r, SECTOR) && |r| == 6 && r[0].off == 64
  {
    [Field(64, [0x80]), Field(66, [0x29]), Field(67, Le(0x534F4B4D, 4)), Field(71, LABEL),
     Field(82, [70, 65, 84, 51, 50, 32, 32, 32]), Field(510, [0x55, 0xAA])]
  }

  /** The BIOS parameter block. */
  function ParameterFields(total: nat, fatSectors: nat): (r: seq<Field>)
    ensures Apart(r, 52) && |r| == 18
  {
    var a := [Field(0, [0xEB, 0x58, 0x90]), Field(3, [77, 65, 75, 79, 83, 32, 32, 32]),
              Field(11, Le(SECTOR, 2)), Field(13, [1]), Field(14, Le(RESERVED_SECTORS, 2)), Field(16, [FAT_COUNT]),
              Field(17, Le(0, 2) + Le(0, 2)), Field(21, [0xF8]), Field(22, Le(0, 2))];
    var b := [Field(24, Le(63, 2)), Field(26, Le(255, 2)), Field(28, Le(0, 4)), Field(32, Le(total, 4)),
              Field(36, Le(fatSectors, 4)), Field(40, Le(0, 2) + Le(0, 2)), Field(44, Le(2, 4)),
              Field(48, Le(1, 2)), Field(50, Le(6, 2))];
    ApartJoin(a, b, 24, 52);
    a + b
  }

  function InfoFields(): (r: seq<Field>)
    ensures Apart(r, SECTOR)
  {
    [Field(0, Le(0x41615252, 4)), Field(484, Le(0x61417272, 4)), Field(488, Le(0xFFFFFFFF, 4)),
     Field(492, Le(5, 4)), Field(508, Le(0xAA550000, 4))]
  }

  function BootSector(): (r: seq<byte>)
    ensures |r| == SECTOR
  {
    Stamp(Zeros(SECTOR), BootFields(TOTAL_SECTORS, FAT_SECTORS))
  }

  function InfoSector(): (r: seq<byte>)
    ensures |r| == SECTOR
  {
    Stamp(Zeros(SECTOR), InfoFields())
  }

  /** Everything written, in the order it lies on the image. */
  function RegionOffset(c: Contents, k: nat): nat
    requires k < 12
  {
    if k < 4 then [0, 1, 6, 7][k] * SECTOR
    else if k < 6 then FatOffset(GEOMETRY, k - 4)
    else if k < 9 then ClusterOffset(GEOMETRY, k - 4)
    else if k == 9 then ClusterOffset(GEOMETRY, c.LoaderStart())
    else if k == 10 then ClusterOffset(GEOMETRY, c.KernelStart())
    else ClusterOffset(GEOMETRY, c.ConfigStart())
  }

  function RegionData(c: Contents, k: nat): (r: seq<byte>)
    requires k < 12
    ensures k < 4 ==> |r| == SECTOR
    ensures 4 <= k < 6 ==> |r| == FAT_SECTORS * SECTOR
    ensures 6 <= k < 9 ==> |r| <= SECTOR
  {
    if k < 4 then (if k % 2 == 0 then BootSector() else InfoSector())
    else if k < 6 then FatTable(c)
    else if k == 6 then RootDirectory(c)
    else if k == 7 then EfiDirectory()
    else if k == 8 then BootDirectory(c)
    else if k == 9 then c.loader
    else if k == 10 then c.kernel
    else c.config
  }

  lemma {:induction false} RegionEnd(c: Contents, k: nat)
    requires c.Fits() && k < 12
    ensures RegionOffset(c, k) + |RegionData(c, k)| <= if k < 11 then RegionOffset(c, k + 1) else IMAGE_BYTES
  {
  }

  lemma {:induction false} RegionInside(c: Contents, k: nat)
    requires c.Fits() && k < 12
    ensures RegionOffset(c, k) + |RegionData(c, k)| <= IMAGE_BYTES
    decreases 12 - k
  {
    RegionEnd(c, k);
    if k < 11 {
      RegionInside(c, k + 1);
    }
  }

  function Regions(c: Contents): (r: seq<Field>)
    requires c.Fits()
    ensures |r| == 12 && Apart(r, IMAGE_BYTES)
    ensures forall k :: 0 <= k < 12 ==> r[k] == Field(RegionOffset(c, k), RegionData(c, k))
  {
    var r := seq(12, k requires 0 <= k < 12 => Field(RegionOffset(c, k), RegionData(c, k)));
    RegionsApart(c, r);
    r
  }

  lemma {:induction false} RegionsApart(c: Contents, r: seq<Field>)
    requires c.Fits() && |r| == 12
    requires forall k :: 0 <= k < 12 ==> r[k] == Field(RegionOffset(c, k), RegionData(c, k))
    ensures Apart(r, IMAGE_BYTES)
  {
    forall k | 0 <= k < 12 ensures r[k].off + |r[k].data| <= IMAGE_BYTES {
      RegionInside(c, k);
    }
    forall k | 0 <= k < 11 ensures r[k].off + |r[k].data| <= r[k + 1].off {
      RegionEnd(c, k);
    }
  }

  /** The image holds its regions, and zeroes everywhere else. */
  ghost predicate IsImage(img: seq<byte>, c: Contents)
    ensures IsImage(img, c) ==> c.Fits() && |img| == IMAGE_BYTES
  {
    c.Fits() && Written(Zeros(IMAGE_BYTES), img, Regions(c))
  }

  lemma {:induction false} RegionRead(img: seq<byte>, c: Contents, k: nat)
    requires IsImage(img, c) && k < 12
    ensures |img| == IMAGE_BYTES
    ensures RegionOffset(c, k) + |RegionData(c, k)| <= |img|
    ensures Slice(img, RegionOffset(c, k), |RegionData(c, k)|) == RegionData(c, k)
  {
    assert Regions(c)[k] == Field(RegionOffset(c, k), RegionData(c, k));
  }
}
