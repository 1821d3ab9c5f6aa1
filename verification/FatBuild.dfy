/**
 mkfat.py's main, working in place on the FAT and image buffers.
 */
module FatBuild {
  import opened Bytes
  import opened FatFormat
  import opened FatImage

  /** The sizing loop. For every volume size it stops in its second round at the latest, with
      a FAT that has an entry for every cluster left. */
  method SizeFat(total: nat) returns (fatSectors: nat, clusters: int, rounds: nat)
    ensures 1 <= rounds <= 2
    ensures clusters == ClusterCount(total, fatSectors)
    ensures (clusters + 2) * 4 <= fatSectors * SECTOR
    ensures fatSectors == if Required(ClusterCount(total, 1)) <= 1 then 1 else Required(ClusterCount(total, 1))
  {
    fatSectors, rounds := 1, 1;
    clusters := ClusterCount(total, fatSectors);
    var required := Required(clusters);
    while required > fatSectors
      invariant 1 <= rounds <= 2
      invariant clusters == ClusterCount(total, fatSectors) && required == Required(clusters)
      invariant rounds == 1 ==> fatSectors == 1
      invariant rounds == 2 ==> fatSectors == Required(ClusterCount(total, 1)) && 1 < fatSectors && required <= fatSectors
      decreases 2 - rounds
    {
      fatSectors := required;
      rounds := rounds + 1;
      clusters := ClusterCount(total, fatSectors);
      required := Required(clusters);
    }
  }

  /** One chain: entries outside it are not touched. */
  method ClusterChain(start: nat, count: nat, fat: array<byte>)
    requires (start + count) * 4 <= fat.Length
    modifies fat
    ensures forall i :: 0 <= i < fat.Length ==>
              fat[i] == if start <= i / 4 < start + count then Le(Link(i / 4, start + count), 4)[i % 4] else old(fat[i])
  {
    for index := 0 to count
      invariant forall i :: 0 <= i < fat.Length ==>
                  fat[i] == if start <= i / 4 < start + index then Le(Link(i / 4, start + count), 4)[i % 4] else old(fat[i])
    {
      var value := if index + 1 == count then EOC else start + index + 1;
      PackEntry(fat, start + index, value);
    }
  }

  method PackEntry(fat: array<byte>, cluster: nat, value: nat)
    requires (cluster + 1) * 4 <= fat.Length
    modifies fat
    ensures forall i :: 0 <= i < fat.Length ==>
              fat[i] == if i / 4 == cluster then Le(value, 4)[i % 4] else old(fat[i])
  {
    Blit(fat, cluster * 4, Le(value, 4));
  }

  method BuildFat(c: Contents) returns (fat: array<byte>)
    requires c.Fits()
    ensures fresh(fat) && fat[..] == FatTable(c)
  {
    fat := new byte[FAT_SECTORS * SECTOR](_ => 0);
    PackEntry(fat, 0, 0x0FFFFFF8);
    for cluster := 1 to 5
      invariant forall i :: 0 <= i < fat.Length ==> fat[i] == if i / 4 < cluster then Le(c.FatValue(i / 4), 4)[i % 4] else 0
    {
      PackEntry(fat, cluster, EOC);
    }
    ClusterChain(c.LoaderStart(), Clusters(|c.loader|), fat);
    ClusterChain(c.KernelStart(), Clusters(|c.kernel|), fat);
    ClusterChain(c.ConfigStart(), Clusters(|c.config|), fat);
    assert forall k :: 0 <= k < 4 ==> Le(0, 4)[k] == 0;
  }

  method WriteCluster(image: array<byte>, g: Geometry, cluster: nat, data: seq<byte>) returns (ok: bool)
    requires 2 <= cluster && ClusterOffset(g, cluster) + |data| <= image.Length
    modifies image
    ensures ok <==> |data| <= SECTOR
    ensures image[..] == if ok then Splice(old(image[..]), ClusterOffset(g, cluster), data) else old(image[..])
  {
    ok := |data| <= SECTOR;
    if ok {
      Blit(image, ClusterOffset(g, cluster), data);
    }
  }

  /** A file cluster by cluster is the file in one piece. */
  method WriteFile(image: array<byte>, g: Geometry, start: nat, content: seq<byte>)
    requires 2 <= start && ClusterOffset(g, start) + |content| <= image.Length
    modifies image
    ensures image[..] == Splice(old(image[..]), ClusterOffset(g, start), content)
  {
    hide Splice;
    ghost var before := image[..];
    var count := (|content| + SECTOR - 1) / SECTOR;
    var done := 0;
    for index := 0 to count
      invariant done == if index * SECTOR <= |content| then index * SECTOR else |content|
      invariant image[..] == Splice(before, ClusterOffset(g, start), content[..done])
    {
      var end := if done + SECTOR <= |content| then done + SECTOR else |content|;
      var ok := WriteCluster(image, g, start + index, content[done..end]);
      SpliceAppend(before, ClusterOffset(g, start), content[..done], content[done..end]);
      assert content[..done] + content[done..end] == content[..end];
      done := end;
    }
    assert content[..done] == content;
  }

  /** The image so far: the first `k` regions on zeroes. */
  ghost predicate Partial(img: seq<byte>, c: Contents, k: nat)
    ensures Partial(img, c, k) ==> c.Fits() && |img| == IMAGE_BYTES
  {
    c.Fits() && k <= 12 && Written(Zeros(IMAGE_BYTES), img, Regions(c)[..k])
  }

  lemma {:induction false} PartialNext(img: seq<byte>, c: Contents, k: nat)
    requires Partial(img, c, k) && k < 12
    ensures RegionOffset(c, k) + |RegionData(c, k)| <= |img|
    ensures Partial(Splice(img, RegionOffset(c, k), RegionData(c, k)), c, k + 1)
  {
    WrittenNext(Zeros(IMAGE_BYTES), img, Regions(c), k);
  }

  /** A region already written can be copied from the image. */
  lemma {:induction false} PartialRead(img: seq<byte>, c: Contents, k: nat, j: nat)
    requires Partial(img, c, k) && j < k
    ensures RegionOffset(c, j) + |RegionData(c, j)| <= |img|
    ensures Slice(img, RegionOffset(c, j), |RegionData(c, j)|) == RegionData(c, j)
  {
    assert Regions(c)[..k][j] == Field(RegionOffset(c, j), RegionData(c, j));
  }

  method Place(image: array<byte>, c: Contents, k: nat, off: nat, data: seq<byte>)
    requires Partial(image[..], c, k) && k < 12
    requires off == RegionOffset(c, k) && data == RegionData(c, k)
    modifies image
    ensures Partial(image[..], c, k + 1)
  {
    PartialNext(image[..], c, k);
    Blit(image, off, data);
  }

  method PlaceCluster(image: array<byte>, c: Contents, k: nat, cluster: nat, data: seq<byte>)
    requires Partial(image[..], c, k) && k < 12 && |data| <= SECTOR
    requires 2 <= cluster && ClusterOffset(GEOMETRY, cluster) == RegionOffset(c, k) && data == RegionData(c, k)
    modifies image
    ensures Partial(image[..], c, k + 1)
  {
    PartialNext(image[..], c, k);
    var ok := WriteCluster(image, GEOMETRY, cluster, data);
  }

  method PlaceFile(image: array<byte>, c: Contents, k: nat, start: nat, content: seq<byte>)
    requires Partial(image[..], c, k) && k < 12
    requires 2 <= start && ClusterOffset(GEOMETRY, start) == RegionOffset(c, k) && content == RegionData(c, k)
    modifies image
    ensures Partial(image[..], c, k + 1)
  {
    PartialNext(image[..], c, k);
    WriteFile(image, GEOMETRY, start, content);
  }

  /** The boot and information sectors, and their backups copied from them. */
  method WriteSectors(image: array<byte>, c: Contents)
    requires Partial(image[..], c, 0)
    modifies image
    ensures Partial(image[..], c, 4)
  {
    hide Partial, BootSector, InfoSector, RootDirectory, EfiDirectory, BootDirectory;
    Place(image, c, 0, 0, BootSector());
    Place(image, c, 1, SECTOR, InfoSector());
    PartialRead(image[..], c, 2, 0);
    Place(image, c, 2, 6 * SECTOR, Slice(image[..], 0, SECTOR));
    PartialRead(image[..], c, 3, 1);
    Place(image, c, 3, 7 * SECTOR, Slice(image[..], SECTOR, SECTOR));
  }

  method WriteFats(image: array<byte>, c: Contents)
    requires Partial(image[..], c, 4)
    modifies image
    ensures Partial(image[..], c, 6)
  {
    hide Partial, FatTable;
    var fat := BuildFat(c);
    for copy := 0 to FAT_COUNT
      invariant Partial(image[..], c, 4 + copy)
      invariant fat != image && fat[..] == FatTable(c)
    {
      Place(image, c, 4 + copy, FatOffset(GEOMETRY, copy), fat[..]);
    }
  }

  method WriteDirectories(image: array<byte>, c: Contents)
    requires Partial(image[..], c, 6)
    modifies image
    ensures Partial(image[..], c, 9)
  {
    hide Partial, BootSector, InfoSector, RootDirectory, EfiDirectory, BootDirectory;
    PlaceCluster(image, c, 6, 2, RootDirectory(c));
    PlaceCluster(image, c, 7, 3, EfiDirectory());
    PlaceCluster(image, c, 8, 4, BootDirectory(c));
  }

  method WriteFiles(image: array<byte>, c: Contents)
    requires Partial(image[..], c, 9)
    modifies image
    ensures Partial(image[..], c, 12)
  {
    hide Partial, BootSector, InfoSector, RootDirectory, EfiDirectory, BootDirectory;
    PlaceFile(image, c, 9, c.LoaderStart(), c.loader);
    PlaceFile(image, c, 10, c.KernelStart(), c.kernel);
    PlaceFile(image, c, 11, c.ConfigStart(), c.config);
  }

  /** The image is built exactly when the files fit. */
  method MakeImage(c: Contents) returns (r: Result<array<byte>>)
    ensures r.Ok? <==> c.Fits()
    ensures r.Ok? ==> fresh(r.value) && IsImage(r.value[..], c)
  {
    var fatSectors, clusters, rounds := SizeFat(TOTAL_SECTORS);
    assert fatSectors == FAT_SECTORS && clusters == CLUSTERS;
    if clusters < 65525 || c.End() >= clusters + 2 {
      return Err;
    }
    var image := new byte[IMAGE_BYTES](_ => 0);
    assert image[..] == Zeros(IMAGE_BYTES);
    WrittenNothing(Zeros(IMAGE_BYTES), Regions(c));
    WriteSectors(image, c);
    WriteFats(image, c);
    WriteDirectories(image, c);
    WriteFiles(image, c);
    assert Regions(c)[..12] == Regions(c);
    return Ok(image);
  }
}
