/**
 Reading back what mkfat.py wrote: through either FAT, every file has its exact bytes.
 */
module FatRead {
  import opened Bytes
  import opened FatFormat
  import opened FatImage

  lemma {:induction false} FieldOfSlice(img: seq<byte>, off: nat, record: seq<byte>, fields: seq<Field>, k: nat)
    requires off + |record| <= |img| && Apart(fields, |record|) && k < |fields|
    requires Slice(img, off, |record|) == Stamp(record, fields)
    ensures off + fields[k].off + |fields[k].data| <= |img|
    ensures Slice(img, off + fields[k].off, |fields[k].data|) == fields[k].data
  {
    StampRead(record, fields, k);
    SliceSlice(img, off, |record|, fields[k].off, |fields[k].data|);
  }

  lemma {:induction false} BootField(img: seq<byte>, c: Contents, k: nat)
    requires IsImage(img, c) && k < 24
    ensures var f := BootFields(TOTAL_SECTORS, FAT_SECTORS)[k];
            f.off + |f.data| <= IMAGE_BYTES && Slice(img, f.off, |f.data|) == f.data
  {
    RegionRead(img, c, 0);
    FieldOfSlice(img, 0, Zeros(SECTOR), BootFields(TOTAL_SECTORS, FAT_SECTORS), k);
  }

  lemma {:induction false} MountImage(img: seq<byte>, c: Contents)
    requires IsImage(img, c)
    ensures Mount(img) == Some(GEOMETRY)
  {
    hide IsImage, Le, FromLe;
    var fields := BootFields(TOTAL_SECTORS, FAT_SECTORS);
    Pow256Values();
    BootField(img, c, 2);
    LeRoundTrip(SECTOR, 2);
    BootField(img, c, 3);
    assert img[13] == Slice(img, 13, 1)[0];
    BootField(img, c, 4);
    LeRoundTrip(RESERVED_SECTORS, 2);
    BootField(img, c, 5);
    assert img[16] == Slice(img, 16, 1)[0];
    BootField(img, c, 13);
    LeRoundTrip(FAT_SECTORS, 4);
    BootField(img, c, 15);
    LeRoundTrip(2, 4);
    BootField(img, c, 23);
  }

  // The FAT.

  lemma {:induction false} TableEntry(c: Contents, cluster: nat)
    requires c.Fits() && cluster < FAT_SECTORS * SECTOR / 4
    ensures FromLe(Slice(FatTable(c), cluster * 4, 4)) == c.FatValue(cluster) < 0x1000_0000
  {
    var raw, value := Slice(FatTable(c), cluster * 4, 4), Le(c.FatValue(cluster), 4);
    forall i | 0 <= i < 4 ensures raw[i] == value[i] {
      assert (cluster * 4 + i) / 4 == cluster && (cluster * 4 + i) % 4 == i;
    }
    assert raw == value;
    Pow256Values();
    LeRoundTrip(c.FatValue(cluster), 4);
  }

  lemma {:induction false} EntryOfTable(img: seq<byte>, c: Contents, copy: nat, cluster: nat)
    requires c.Fits() && copy < FAT_COUNT && cluster < FAT_SECTORS * SECTOR / 4
    requires |img| == IMAGE_BYTES
    requires Slice(img, FatOffset(GEOMETRY, copy), FAT_SECTORS * SECTOR) == FatTable(c)
    ensures FatEntry(img, GEOMETRY, copy, cluster) == Some(c.FatValue(cluster))
  {
    hide FatTable, FromLe;
    SliceSlice(img, FatOffset(GEOMETRY, copy), FAT_SECTORS * SECTOR, cluster * 4, 4);
    TableEntry(c, cluster);
  }

  /** Both FAT copies hold the same entry for every cluster. */
  lemma {:induction false} FatEntryOf(img: seq<byte>, c: Contents, copy: nat, cluster: nat)
    requires IsImage(img, c) && copy < FAT_COUNT && cluster < CLUSTERS + 2
    ensures FatEntry(img, GEOMETRY, copy, cluster) == Some(c.FatValue(cluster))
  {
    hide IsImage, FatTable, FatEntry;
    if copy == 0 {
      RegionRead(img, c, 4);
    } else {
      RegionRead(img, c, 5);
    }
    EntryOfTable(img, c, copy, cluster);
  }

  function Range(start: nat, end: nat): (r: seq<nat>)
    requires start <= end
    ensures |r| == end - start && forall k :: 0 <= k < |r| ==> r[k] == start + k
  {
    seq(end - start, k => start + k)
  }

  /** Entries that link each cluster to the next make one chain. */
  lemma {:induction false} FollowRange(img: seq<byte>, g: Geometry, copy: nat, start: nat, end: nat, limit: nat)
    requires start < end <= EOC && end - start <= limit
    requires forall k :: start <= k < end ==> HasCluster(img, g, k)
    requires forall k :: start <= k < end ==> FatEntry(img, g, copy, k) == Some(Link(k, end))
    requires end <= CHAIN_END
    ensures Follow(img, g, copy, start, limit) == Some(Range(start, end))
    decreases end - start
  {
    if start + 1 == end {
      assert Range(start, end) == [start];
    } else {
      FollowRange(img, g, copy, start + 1, end, limit - 1);
      assert [start] + Range(start + 1, end) == Range(start, end);
    }
  }

  /** Consecutive clusters are one stretch of the image. */
  lemma {:induction false} ReadRange(img: seq<byte>, g: Geometry, start: nat, end: nat)
    requires 2 <= start <= end && ClusterOffset(g, end) <= |img|
    requires forall k :: start <= k < end ==> HasCluster(img, g, k)
    ensures ReadClusters(img, g, Range(start, end)) == Slice(img, ClusterOffset(g, start), (end - start) * SECTOR)
  {
    if start < end {
      var chain := Range(start, end);
      assert chain[..|chain| - 1] == Range(start, end - 1);
      ReadRange(img, g, start, end - 1);
      var at, n := ClusterOffset(g, start), (end - 1 - start) * SECTOR;
      assert Slice(img, at, n) + Slice(img, at + n, SECTOR) == Slice(img, at, n + SECTOR);
    }
  }

  /** The chain of the file that ends before cluster `end`. */
  lemma {:induction false} FileChain(img: seq<byte>, c: Contents, copy: nat, start: nat, end: nat)
    requires IsImage(img, c) && copy < FAT_COUNT
    requires (start, end) in {(c.LoaderStart(), c.KernelStart()), (c.KernelStart(), c.ConfigStart()), (c.ConfigStart(), c.End())}
    ensures Chain(img, GEOMETRY, copy, start) == Some(Range(start, end))
  {
    hide IsImage;
    forall k | start <= k < end
      ensures HasCluster(img, GEOMETRY, k) && FatEntry(img, GEOMETRY, copy, k) == Some(Link(k, end))
    {
      FatEntryOf(img, c, copy, k);
    }
    FollowRange(img, GEOMETRY, copy, start, end, FAT_SECTORS * (SECTOR / 4));
  }

  /** A file's entry leads, through its chain, to the bytes at its first cluster. */
  lemma {:induction false} FileRead(img: seq<byte>, c: Contents, copy: nat, end: nat, entry: DirEntry, content: seq<byte>)
    requires IsImage(img, c) && copy < FAT_COUNT
    requires Chain(img, GEOMETRY, copy, entry.cluster) == if entry.cluster <= end then Some(Range(entry.cluster, end)) else None
    requires 5 <= entry.cluster < end <= CLUSTERS + 2
    requires entry.size == |content| <= (end - entry.cluster) * SECTOR
    requires Slice(img, ClusterOffset(GEOMETRY, entry.cluster), |content|) == content
    ensures ReadFile(img, GEOMETRY, copy, entry) == Some(content)
  {
    hide IsImage, Chain;
    ReadRange(img, GEOMETRY, entry.cluster, end);
    SliceSlice(img, ClusterOffset(GEOMETRY, entry.cluster), (end - entry.cluster) * SECTOR, 0, entry.size);
  }

  // Directories.

  /** A directory of up to four entries, the rest of its cluster zero. */
  ghost predicate Holds(directory: seq<byte>, entries: seq<seq<byte>>) {
    && |directory| == SECTOR && |entries| <= 4
    && (forall k :: 0 <= k < |entries| ==> |entries[k]| == 32 && Slice(directory, k * 32, 32) == entries[k])
  }

  lemma {:induction false} DirectoryCluster(img: seq<byte>, c: Contents, region: nat, entries: seq<seq<byte>>)
    requires IsImage(img, c) && 6 <= region < 9 && |entries| <= 4
    requires forall k :: 0 <= k < |entries| ==> |entries[k]| == 32
    requires |RegionData(c, region)| == 32 * |entries|
    requires forall k :: 0 <= k < |entries| ==> Slice(RegionData(c, region), k * 32, 32) == entries[k]
    ensures HasCluster(img, GEOMETRY, region - 4)
    ensures Holds(Cluster(img, GEOMETRY, region - 4), entries)
  {
    hide IsImage, RootDirectory, EfiDirectory, BootDirectory;
    var at := ClusterOffset(GEOMETRY, region - 4);
    RegionRead(img, c, region);
    forall k | 0 <= k < |entries| ensures Slice(Cluster(img, GEOMETRY, region - 4), k * 32, 32) == entries[k] {
      SliceSlice(img, at, SECTOR, k * 32, 32);
      SliceSlice(img, at, 32 * |entries|, k * 32, 32);
    }
  }

  /** Entry `k` is found if no earlier entry has its name and none before it is free. */
  lemma {:induction false} FindEntry(directory: seq<byte>, entries: seq<seq<byte>>, name: seq<byte>, j: nat, k: nat)
    requires Holds(directory, entries) && j <= k < |entries|
    requires forall i :: j <= i < k ==> entries[i][0] != 0 && (ParseEntry(entries[i]).name != name || ParseEntry(entries[i]).attributes == 0x08)
    requires entries[k][0] != 0 && ParseEntry(entries[k]).name == name && ParseEntry(entries[k]).attributes != 0x08
    ensures Find(directory, name, j) == Some(ParseEntry(entries[k]))
    decreases k - j
  {
    assert directory[j * 32] == Slice(directory, j * 32, 32)[0];
    if j < k {
      FindEntry(directory, entries, name, j + 1, k);
    }
  }

  ghost function RootEntries(c: Contents): seq<seq<byte>> {
    [EntryBytes(LABEL, 0x08, 0, 0), EntryBytes(EFI, 0x10, 3, 0),
     EntryBytes(KERNEL_ELF, 0x20, c.KernelStart(), |c.kernel|), EntryBytes(MAKOS_CFG, 0x20, c.ConfigStart(), |c.config|)]
  }

  /** A directory `cluster` with itself, its parent and one more entry. */
  ghost function SubEntries(cluster: nat, parent: nat, entry: seq<byte>): seq<seq<byte>> {
    [EntryBytes(DOT, 0x10, cluster, 0), EntryBytes(DOT_DOT, 0x10, parent, 0), entry]
  }

  lemma {:induction false} RootHolds(img: seq<byte>, c: Contents)
    requires IsImage(img, c)
    ensures HasCluster(img, GEOMETRY, 2) && Holds(Cluster(img, GEOMETRY, 2), RootEntries(c))
  {
    hide IsImage, EntryBytes, Cluster;
    assert forall k :: 0 <= k < 4 ==> Slice(RootDirectory(c), k * 32, 32) == RootEntries(c)[k];
    DirectoryCluster(img, c, 6, RootEntries(c));
  }

  lemma {:induction false} EfiHolds(img: seq<byte>, c: Contents)
    requires IsImage(img, c)
    ensures HasCluster(img, GEOMETRY, 3)
    ensures Holds(Cluster(img, GEOMETRY, 3), SubEntries(3, 2, EntryBytes(BOOT, 0x10, 4, 0)))
  {
    hide IsImage, EntryBytes, Cluster;
    var entries := SubEntries(3, 2, EntryBytes(BOOT, 0x10, 4, 0));
    assert forall k :: 0 <= k < 3 ==> Slice(EfiDirectory(), k * 32, 32) == entries[k];
    DirectoryCluster(img, c, 7, entries);
  }

  lemma {:induction false} BootHolds(img: seq<byte>, c: Contents)
    requires IsImage(img, c)
    ensures HasCluster(img, GEOMETRY, 4)
    ensures Holds(Cluster(img, GEOMETRY, 4), SubEntries(4, 3, EntryBytes(c.LoaderName(), 0x20, c.LoaderStart(), |c.loader|)))
  {
    hide IsImage, EntryBytes, Cluster;
    var entries := SubEntries(4, 3, EntryBytes(c.LoaderName(), 0x20, c.LoaderStart(), |c.loader|));
    assert forall k :: 0 <= k < 3 ==> Slice(BootDirectory(c), k * 32, 32) == entries[k];
    DirectoryCluster(img, c, 8, entries);
  }

  ghost function RootEntry(c: Contents, k: nat): DirEntry
    requires k < 4
  {
    [DirEntry(LABEL, 0x08, 0, 0), DirEntry(EFI, 0x10, 3, 0),
     DirEntry(KERNEL_ELF, 0x20, c.KernelStart(), |c.kernel|), DirEntry(MAKOS_CFG, 0x20, c.ConfigStart(), |c.config|)][k]
  }

  lemma {:induction false} RootParsed(c: Contents, k: nat)
    requires c.Fits() && k < 4
    ensures ParseEntry(RootEntries(c)[k]) == RootEntry(c, k) && RootEntries(c)[k][0] != 0
  {
    hide EntryBytes;
    var e := RootEntry(c, k);
    EntryRoundTrip(e.name, e.attributes, e.cluster, e.size);
  }

  lemma {:induction false} FindRootAt(directory: seq<byte>, c: Contents, k: nat)
    requires c.Fits() && Holds(directory, RootEntries(c)) && 1 <= k < 4
    ensures Find(directory, RootEntry(c, k).name, 0) == Some(RootEntry(c, k))
  {
    hide ParseEntry, EntryBytes;
    var entries, name := RootEntries(c), RootEntry(c, k).name;
    RootParsed(c, k);
    forall i | 0 <= i < k
      ensures entries[i][0] != 0 && (ParseEntry(entries[i]).name != name || ParseEntry(entries[i]).attributes == 0x08)
    {
      RootParsed(c, i);
      assert EFI[0] == 69 && KERNEL_ELF[0] == 75 && MAKOS_CFG[0] == 77;
    }
    FindEntry(directory, entries, name, 0, k);
  }

  lemma {:induction false} FindRoot(directory: seq<byte>, c: Contents)
    requires c.Fits() && Holds(directory, RootEntries(c))
    ensures Find(directory, EFI, 0) == Some(DirEntry(EFI, 0x10, 3, 0))
    ensures Find(directory, KERNEL_ELF, 0) == Some(DirEntry(KERNEL_ELF, 0x20, c.KernelStart(), |c.kernel|))
    ensures Find(directory, MAKOS_CFG, 0) == Some(DirEntry(MAKOS_CFG, 0x20, c.ConfigStart(), |c.config|))
  {
    FindRootAt(directory, c, 1);
    FindRootAt(directory, c, 2);
    FindRootAt(directory, c, 3);
  }

  lemma {:induction false} FindSub(directory: seq<byte>, cluster: nat, parent: nat, name: seq<byte>, attributes: byte, start: nat, size: nat)
    requires cluster < 5 && parent < 5 && |name| == 11 && name[0] == 66 && attributes != 0x08
    requires start < 0x1_0000_0000 && size < 0x1_0000_0000
    requires Holds(directory, SubEntries(cluster, parent, EntryBytes(name, attributes, start, size)))
    ensures Find(directory, name, 0) == Some(DirEntry(name, attributes, start, size))
  {
    EntryRoundTrip(DOT, 0x10, cluster, 0);
    EntryRoundTrip(DOT_DOT, 0x10, parent, 0);
    EntryRoundTrip(name, attributes, start, size);
    assert DOT[0] == 46 && DOT_DOT[0] == 46;
    FindEntry(directory, SubEntries(cluster, parent, EntryBytes(name, attributes, start, size)), name, 0, 2);
  }

  lemma {:induction false} ReadKernel(img: seq<byte>, c: Contents, copy: nat)
    requires IsImage(img, c) && copy < FAT_COUNT
    ensures ReadPath(img, GEOMETRY, copy, 2, [KERNEL_ELF]) == Some(c.kernel)
  {
    hide IsImage, Find, ReadFile, Chain, RootEntries;
    RootHolds(img, c);
    FindRoot(Cluster(img, GEOMETRY, 2), c);
    FileChain(img, c, copy, c.KernelStart(), c.ConfigStart());
    RegionRead(img, c, 10);
    FileRead(img, c, copy, c.ConfigStart(), DirEntry(KERNEL_ELF, 0x20, c.KernelStart(), |c.kernel|), c.kernel);
  }

  lemma {:induction false} ReadConfig(img: seq<byte>, c: Contents, copy: nat)
    requires IsImage(img, c) && copy < FAT_COUNT
    ensures ReadPath(img, GEOMETRY, copy, 2, [MAKOS_CFG]) == Some(c.config)
  {
    hide IsImage, Find, ReadFile, Chain, RootEntries;
    RootHolds(img, c);
    FindRoot(Cluster(img, GEOMETRY, 2), c);
    FileChain(img, c, copy, c.ConfigStart(), c.End());
    RegionRead(img, c, 11);
    FileRead(img, c, copy, c.End(), DirEntry(MAKOS_CFG, 0x20, c.ConfigStart(), |c.config|), c.config);
  }

  lemma {:induction false} ReadLoader(img: seq<byte>, c: Contents, copy: nat)
    requires IsImage(img, c) && copy < FAT_COUNT
    ensures ReadPath(img, GEOMETRY, copy, 4, [c.LoaderName()]) == Some(c.loader)
  {
    hide IsImage, Find, ReadFile, Chain, SubEntries;
    BootHolds(img, c);
    FindSub(Cluster(img, GEOMETRY, 4), 4, 3, c.LoaderName(), 0x20, c.LoaderStart(), |c.loader|);
    FileChain(img, c, copy, c.LoaderStart(), c.KernelStart());
    RegionRead(img, c, 9);
    FileRead(img, c, copy, c.KernelStart(), DirEntry(c.LoaderName(), 0x20, c.LoaderStart(), |c.loader|), c.loader);
  }

  lemma {:induction false} ReadLoaderPath(img: seq<byte>, c: Contents, copy: nat)
    requires IsImage(img, c) && copy < FAT_COUNT
    ensures ReadPath(img, GEOMETRY, copy, 2, [EFI, BOOT, c.LoaderName()]) == Some(c.loader)
  {
    hide IsImage, Find, ReadFile, RootEntries, SubEntries;
    var path := [EFI, BOOT, c.LoaderName()];
    assert path[1..] == [BOOT, c.LoaderName()] && path[1..][1..] == [c.LoaderName()];
    RootHolds(img, c);
    FindRoot(Cluster(img, GEOMETRY, 2), c);
    EfiHolds(img, c);
    FindSub(Cluster(img, GEOMETRY, 3), 3, 2, BOOT, 0x10, 4, 0);
    ReadLoader(img, c, copy);
  }

  /** For all contents that fit, the image mounts, and following either FAT from the directory
      entries returns exactly the loader, the kernel and the configuration. */
  lemma {:induction false} ReadBack(img: seq<byte>, c: Contents, copy: nat)
    requires IsImage(img, c) && copy < FAT_COUNT
    ensures Mount(img) == Some(GEOMETRY)
    ensures ReadPath(img, GEOMETRY, copy, GEOMETRY.root, [KERNEL_ELF]) == Some(c.kernel)
    ensures ReadPath(img, GEOMETRY, copy, GEOMETRY.root, [MAKOS_CFG]) == Some(c.config)
    ensures c.arm ==> ReadPath(img, GEOMETRY, copy, GEOMETRY.root, [EFI, BOOT, BOOTAA64_EFI]) == Some(c.loader)
    ensures !c.arm ==> ReadPath(img, GEOMETRY, copy, GEOMETRY.root, [EFI, BOOT, BOOTX64_EFI]) == Some(c.loader)
  {
    hide IsImage, ReadPath, Mount;
    MountImage(img, c);
    ReadKernel(img, c, copy);
    ReadConfig(img, c, copy);
    ReadLoaderPath(img, c, copy);
  }

  /** No cluster belongs to two chains, both FATs agree on every chain, and every cluster has an entry. */
  lemma {:induction false} ChainsDisjoint(img: seq<byte>, c: Contents, copy: nat)
    requires IsImage(img, c) && copy < FAT_COUNT
    ensures var loader := Chain(img, GEOMETRY, copy, c.LoaderStart());
            var kernel := Chain(img, GEOMETRY, copy, c.KernelStart());
            var config := Chain(img, GEOMETRY, copy, c.ConfigStart());
            && loader.Some? && kernel.Some? && config.Some?
            && (forall k :: k in loader.value ==> 4 < k && k !in kernel.value && k !in config.value)
            && (forall k :: k in kernel.value ==> 4 < k && k !in config.value)
            && (forall k :: k in config.value ==> 4 < k < CLUSTERS + 2)
    ensures forall cluster :: 0 <= cluster < CLUSTERS + 2 ==>
              FatEntry(img, GEOMETRY, 0, cluster) == FatEntry(img, GEOMETRY, 1, cluster) != None
  {
    FileChain(img, c, copy, c.LoaderStart(), c.KernelStart());
    FileChain(img, c, copy, c.KernelStart(), c.ConfigStart());
    FileChain(img, c, copy, c.ConfigStart(), c.End());
    forall cluster | 0 <= cluster < CLUSTERS + 2
      ensures FatEntry(img, GEOMETRY, 0, cluster) == FatEntry(img, GEOMETRY, 1, cluster) != None
    {
      FatEntryOf(img, c, 0, cluster);
      FatEntryOf(img, c, 1, cluster);
    }
  }
}
