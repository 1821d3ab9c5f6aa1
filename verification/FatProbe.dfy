/**
 scripts/boot_test_aarch64_net_owner.py: finding the boot configuration in an image
 and patching a private copy of it.
 */
module FatProbe {
  import opened Bytes
  import opened FatFormat
  import opened FatImage
  import opened FatRead

  /** "root=ata1 log=serial makfs.recover=auto" and a newline. */
  const BASE_CONFIG: seq<byte> :=
    [114, 111, 111, 116, 61, 97, 116, 97, 49, 32, 108, 111, 103, 61, 115, 101, 114, 105, 97, 108, 32,
     109, 97, 107, 102, 115, 46, 114, 101, 99, 111, 118, 101, 114, 61, 97, 117, 116, 111, 10]

  /** With "test.net-owner=required" and a newline. */
  const PROBE_CONFIG: seq<byte> :=
    BASE_CONFIG + [116, 101, 115, 116, 46, 110, 101, 116, 45, 111, 119, 110, 101, 114, 61, 114, 101, 113, 117, 105, 114, 101, 100, 10]

  const FAT32: seq<byte> := [70, 65, 84, 51, 50, 32, 32, 32]

  /** seek and read: at the end of the file a read comes back short. */
  function ReadAt(s: seq<byte>, off: nat, n: nat): (r: seq<byte>)
    ensures off + n <= |s| ==> r == Slice(s, off, n)
    ensures |r| <= n
    ensures off + n > |s| && n > 0 ==> |r| < n
  {
    if off >= |s| then [] else if off + n <= |s| then s[off..off + n] else s[off..]
  }

  predicate BootSupported(img: seq<byte>) {
    && SECTOR <= |img|
    && Slice(img, 510, 2) == [0x55, 0xAA]
    && Slice(img, 82, 8) == FAT32
    && FromLe(Slice(img, 11, 2)) == SECTOR
    && img[13] == 1
    && FromLe(Slice(img, 14, 2)) != 0
    && img[16] == FAT_COUNT
    && FromLe(Slice(img, 36, 4)) != 0
    && 2 <= FromLe(Slice(img, 44, 4))
  }

  predicate EndsChain(img: seq<byte>, g: Geometry, copy: nat, cluster: nat) {
    var raw := ReadAt(img, FatOffset(g, copy) + cluster * 4, 4);
    |raw| == 4 && CHAIN_END <= FromLe(raw) % 0x1000_0000
  }

  /** The directory offsets whose entry has the configuration's name. */
  ghost predicate Named(directory: seq<byte>, o: nat) {
    o < |directory| && o % 32 == 0 && ReadAt(directory, o, 11) == MAKOS_CFG
  }

  ghost function RootOf(img: seq<byte>): seq<byte>
    requires BootSupported(img)
  {
    ReadAt(img, ClusterOffset(Mount(img).value, Mount(img).value.root), SECTOR)
  }

  /** The only configuration entry is at directory offset `o`: a regular file of the standard
      content in one cluster. */
  ghost predicate Supported(img: seq<byte>, o: nat) {
    && BootSupported(img)
    && var g, directory := Mount(img).value, RootOf(img);
    && Named(directory, o)
    && (forall p: nat :: Named(directory, p) ==> p == o)
    && o + 32 <= |directory|
    && var entry := ParseEntry(Slice(directory, o, 32));
    && entry.attributes == 0x20
    && 2 <= entry.cluster
    && entry.size == |BASE_CONFIG|
    && EndsChain(img, g, 0, entry.cluster) && EndsChain(img, g, 1, entry.cluster)
    && ReadAt(img, ClusterOffset(g, entry.cluster), entry.size) == BASE_CONFIG
  }

  ghost function SizeOffset(img: seq<byte>, o: nat): nat
    requires Supported(img, o)
  {
    ClusterOffset(Mount(img).value, Mount(img).value.root) + o + 28
  }

  ghost function ContentOffset(img: seq<byte>, o: nat): nat
    requires Supported(img, o)
  {
    ClusterOffset(Mount(img).value, ParseEntry(Slice(RootOf(img), o, 32)).cluster)
  }

  /** The directory scan: how many entries have the name, and where the last of them is. */
  method ScanDirectory(directory: seq<byte>) returns (count: nat, found: nat)
    ensures count == 0 <==> forall p: nat :: !Named(directory, p)
    ensures count != 0 ==> Named(directory, found)
    ensures count == 1 <==> Named(directory, found) && forall p: nat :: Named(directory, p) ==> p == found
  {
    count, found := 0, 0;
    var offset := 0;
    while offset < |directory|
      invariant offset % 32 == 0
      invariant count == 0 <==> forall p: nat :: p < offset ==> !Named(directory, p)
      invariant count != 0 ==> found < offset && Named(directory, found)
      invariant count == 1 ==> forall p: nat :: p < offset && Named(directory, p) ==> p == found
      invariant count > 1 ==> exists p: nat :: p < offset && p != found && Named(directory, p)
      decreases |directory| - offset
    {
      assert Named(directory, offset) <==> ReadAt(directory, offset, 11) == MAKOS_CFG;
      if ReadAt(directory, offset, 11) == MAKOS_CFG {
        count, found := count + 1, offset;
      }
      assert forall p: nat :: offset < p < offset + 32 ==> !Named(directory, p);
      offset := offset + 32;
    }
  }

  /** The offsets to patch, exactly for the supported images. */
  method ConfigOffsets(img: seq<byte>) returns (r: Result<(nat, nat)>)
    ensures r.Err? ==> forall o: nat :: !Supported(img, o)
    ensures r.Ok? ==> exists o: nat :: Supported(img, o) && r.value == (SizeOffset(img, o), ContentOffset(img, o))
  {
    hide FromLe, ParseEntry, ReadAt;
    if !BootSupported(img) {
      return Err;
    }
    var g := Mount(img).value;
    var rootOffset := ClusterOffset(g, g.root);
    var directory := ReadAt(img, rootOffset, SECTOR);
    var count, o := ScanDirectory(directory);
    if count != 1 || o + 32 > |directory| {
      return Err;
    }
    var entry := ParseEntry(Slice(directory, o, 32));
    if entry.attributes != 0x20 || entry.cluster < 2 || entry.size != |BASE_CONFIG| || |PROBE_CONFIG| > SECTOR {
      return Err;
    }
    for copy := 0 to FAT_COUNT
      invariant forall k :: 0 <= k < copy ==> EndsChain(img, g, k, entry.cluster)
    {
      if !EndsChain(img, g, copy, entry.cluster) {
        return Err;
      }
    }
    var configOffset := ClusterOffset(g, entry.cluster);
    if ReadAt(img, configOffset, entry.size) != BASE_CONFIG {
      return Err;
    }
    assert Supported(img, o);
    return Ok((rootOffset + o + 28, configOffset));
  }

  // mkfat's images.

  lemma {:induction false} ImageBootSupported(img: seq<byte>, c: Contents)
    requires IsImage(img, c)
    ensures BootSupported(img) && Mount(img) == Some(GEOMETRY)
  {
    MountImage(img, c);
    BootField(img, c, 22);
  }

  lemma {:induction false} RootTail(img: seq<byte>, c: Contents, i: nat)
    requires IsImage(img, c) && ClusterOffset(GEOMETRY, 2) + 128 <= i < ClusterOffset(GEOMETRY, 3)
    ensures i < |img| && img[i] == 0
  {
    var regions := Regions(c);
    forall k | 0 <= k < 12 ensures !(regions[k].off <= i < regions[k].off + |regions[k].data|) {
      if k < 6 {
        ApartOrder(regions, IMAGE_BYTES, k, 6);
      } else if k > 7 {
        ApartOrder(regions, IMAGE_BYTES, 7, k);
      }
    }
  }

  lemma {:induction false} EntryNamed(c: Contents, directory: seq<byte>, k: nat)
    requires c.Fits() && k < 4 && Holds(directory, RootEntries(c))
    ensures Named(directory, k * 32) <==> k == 3
  {
    hide EntryBytes;
    RootParsed(c, k);
    assert Slice(directory, k * 32, 32)[..11] == Slice(directory, k * 32, 11);
    assert EFI[0] == 69 && KERNEL_ELF[0] == 75 && MAKOS_CFG[0] == 77 && MAKOS_CFG[8] == 67 && LABEL[8] == 32;
  }

  lemma {:induction false} FreeNotNamed(directory: seq<byte>, o: nat)
    requires o < |directory| && directory[o] == 0
    ensures !Named(directory, o)
  {
    if o + 11 <= |directory| {
      assert Slice(directory, o, 11)[0] == directory[o];
      assert MAKOS_CFG[0] == 77;
    }
  }

  /** Only the fourth root entry has the configuration's name. */
  lemma {:induction false} RootNames(img: seq<byte>, c: Contents, o: nat)
    requires IsImage(img, c)
    ensures HasCluster(img, GEOMETRY, 2)
    ensures Named(Cluster(img, GEOMETRY, 2), o) <==> o == 96
  {
    var directory := Cluster(img, GEOMETRY, 2);
    RootHolds(img, c);
    if o < 128 && o % 32 == 0 {
      EntryNamed(c, directory, o / 32);
    } else if 128 <= o < SECTOR {
      RootTail(img, c, ClusterOffset(GEOMETRY, 2) + o);
      FreeNotNamed(directory, o);
    }
  }

  lemma {:induction false} ImageEndsChain(img: seq<byte>, c: Contents, copy: nat)
    requires IsImage(img, c) && copy < FAT_COUNT && Clusters(|c.config|) == 1
    ensures EndsChain(img, GEOMETRY, copy, c.ConfigStart())
  {
    FatEntryOf(img, c, copy, c.ConfigStart());
  }

  lemma {:induction false} ConfigEntry(img: seq<byte>, c: Contents)
    requires IsImage(img, c)
    ensures HasCluster(img, GEOMETRY, 2)
    ensures ParseEntry(Slice(Cluster(img, GEOMETRY, 2), 96, 32)) == DirEntry(MAKOS_CFG, 0x20, c.ConfigStart(), |c.config|)
  {
    hide IsImage, EntryBytes, ParseEntry;
    RootHolds(img, c);
    RootParsed(c, 3);
    assert Slice(Cluster(img, GEOMETRY, 2), 3 * 32, 32) == RootEntries(c)[3];
  }

  lemma {:induction false} RootIsCluster(img: seq<byte>, c: Contents)
    requires IsImage(img, c)
    ensures BootSupported(img) && HasCluster(img, GEOMETRY, 2) && RootOf(img) == Cluster(img, GEOMETRY, 2)
    ensures forall p: nat :: Named(RootOf(img), p) <==> p == 96
  {
    hide IsImage, Named;
    ImageBootSupported(img, c);
    ConfigEntry(img, c);
    forall p: nat ensures Named(Cluster(img, GEOMETRY, 2), p) <==> p == 96 {
      RootNames(img, c, p);
    }
  }

  /** The patcher accepts an image of ours exactly when it carries the standard configuration. */
  lemma {:induction false} ImageSupported(img: seq<byte>, c: Contents, o: nat)
    requires IsImage(img, c)
    ensures Supported(img, o) <==> o == 96 && c.config == BASE_CONFIG
    ensures Supported(img, o) ==>
              && SizeOffset(img, o) == ClusterOffset(GEOMETRY, 2) + 124
              && ContentOffset(img, o) == ClusterOffset(GEOMETRY, c.ConfigStart())
  {
    hide IsImage, FromLe, ParseEntry, EndsChain, BootSupported, RootOf, Mount, Named;
    RootIsCluster(img, c);
    ImageBootSupported(img, c);
    ConfigEntry(img, c);
    RegionRead(img, c, 11);
    if c.config == BASE_CONFIG {
      ImageEndsChain(img, c, 0);
      ImageEndsChain(img, c, 1);
    }
  }

  // Arming.

  function Patched(img: seq<byte>, sizeOffset: nat, contentOffset: nat): (r: seq<byte>)
    requires sizeOffset + 4 <= |img| && contentOffset + |PROBE_CONFIG| <= |img|
    ensures |r| == |img|
  {
    Splice(Splice(img, sizeOffset, Le(|PROBE_CONFIG|, 4)), contentOffset, PROBE_CONFIG)
  }

  lemma {:induction false} SizeField(name: seq<byte>, attributes: byte, cluster: nat, size: nat, newSize: nat)
    requires |name| == 11
    ensures EntryBytes(name, attributes, cluster, newSize) == Splice(EntryBytes(name, attributes, cluster, size), 28, Le(newSize, 4))
  {
    var fields, newFields := EntryFields(name, attributes, cluster, size), EntryFields(name, attributes, cluster, newSize);
    assert fields[..4] == newFields[..4];
  }

  lemma {:induction false} ProbeRegions(c: Contents)
    requires c.Fits() && c.config == BASE_CONFIG
    ensures var d := c.(config := PROBE_CONFIG);
            && d.Fits() && d.End() == c.End()
            && RootDirectory(d) == Splice(RootDirectory(c), 124, Le(|PROBE_CONFIG|, 4))
            && FatTable(d) == FatTable(c)
  {
    hide EntryBytes, Le;
    var d := c.(config := PROBE_CONFIG);
    SizeField(MAKOS_CFG, 0x20, c.ConfigStart(), |c.config|, |d.config|);
    assert forall k :: d.FatValue(k) == c.FatValue(k);
  }

  /** Every region but the root directory and the configuration is the same for both. */
  lemma {:induction false} SameRegion(c: Contents, k: nat)
    requires c.Fits() && c.config == BASE_CONFIG && k < 12 && k != 6
    ensures var d := c.(config := PROBE_CONFIG);
            RegionOffset(d, k) == RegionOffset(c, k) && (k != 11 ==> RegionData(d, k) == RegionData(c, k))
  {
    hide EntryBytes, FatTable;
    ProbeRegions(c);
  }

  lemma {:induction false} PatchedFrame(img: seq<byte>, size: nat, content: nat, at: nat, n: nat)
    requires size + 4 <= |img| && content + |PROBE_CONFIG| <= |img| && at + n <= |img|
    requires at + n <= size || size + 4 <= at
    requires at + n <= content
    ensures Slice(Patched(img, size, content), at, n) == Slice(img, at, n)
  {
    hide Le, Splice;
    SpliceFrame(img, size, Le(|PROBE_CONFIG|, 4), at, n);
    SpliceFrame(Splice(img, size, Le(|PROBE_CONFIG|, 4)), content, PROBE_CONFIG, at, n);
  }

  ghost function Armed(img: seq<byte>, c: Contents): (r: seq<byte>)
    requires IsImage(img, c) && c.config == BASE_CONFIG
    ensures |r| == |img|
  {
    RegionInside(c, 11);
    assert ClusterOffset(GEOMETRY, c.ConfigStart()) + |PROBE_CONFIG| <= ClusterOffset(GEOMETRY, c.End()) <= IMAGE_BYTES;
    Patched(img, ClusterOffset(GEOMETRY, 2) + 124, ClusterOffset(GEOMETRY, c.ConfigStart()))
  }

  lemma {:induction false} ArmedRoot(img: seq<byte>, c: Contents)
    requires IsImage(img, c) && c.config == BASE_CONFIG
    ensures Slice(Armed(img, c), ClusterOffset(GEOMETRY, 2), 128) == RootDirectory(c.(config := PROBE_CONFIG))
  {
    hide IsImage, RootDirectory, Le, Splice;
    ProbeRegions(c);
    RegionRead(img, c, 6);
    var root, count := ClusterOffset(GEOMETRY, 2), Le(|PROBE_CONFIG|, 4);
    SpliceWithin(img, root, 128, 124, count);
    SpliceFrame(Splice(img, root + 124, count), ClusterOffset(GEOMETRY, c.ConfigStart()), PROBE_CONFIG, root, 128);
  }

  lemma {:induction false} ArmedRegion(img: seq<byte>, c: Contents, k: nat)
    requires IsImage(img, c) && c.config == BASE_CONFIG && k < 12
    ensures var d := c.(config := PROBE_CONFIG);
            && RegionOffset(d, k) + |RegionData(d, k)| <= |img|
            && Slice(Armed(img, c), RegionOffset(d, k), |RegionData(d, k)|) == RegionData(d, k)
  {
    hide IsImage, RootDirectory, EfiDirectory, BootDirectory, BootSector, InfoSector, FatTable, Le, Splice;
    var d := c.(config := PROBE_CONFIG);
    var size, content := ClusterOffset(GEOMETRY, 2) + 124, ClusterOffset(GEOMETRY, c.ConfigStart());
    if k == 6 {
      ArmedRoot(img, c);
    } else if k == 11 {
      SpliceRead(Splice(img, size, Le(|PROBE_CONFIG|, 4)), content, PROBE_CONFIG);
    } else {
      SameRegion(c, k);
      RegionRead(img, c, k);
      RegionApart(c, k, 6);
      RegionApart(c, k, 11);
      PatchedFrame(img, size, content, RegionOffset(c, k), |RegionData(c, k)|);
    }
  }

  lemma {:induction false} RegionApart(c: Contents, j: nat, k: nat)
    requires c.Fits() && j < 12 && k < 12 && j != k
    ensures j < k ==> RegionOffset(c, j) + |RegionData(c, j)| <= RegionOffset(c, k)
    ensures k < j ==> RegionOffset(c, k) + |RegionData(c, k)| <= RegionOffset(c, j)
  {
    hide RegionOffset, RegionData;
    var r := Regions(c);
    assert r[j] == Field(RegionOffset(c, j), RegionData(c, j)) && r[k] == Field(RegionOffset(c, k), RegionData(c, k));
    if j < k {
      ApartOrder(r, IMAGE_BYTES, j, k);
    } else {
      ApartOrder(r, IMAGE_BYTES, k, j);
    }
  }

  /** Outside the regions the armed image is still zero. */
  lemma {:induction false} ArmedGap(img: seq<byte>, c: Contents, i: nat)
    requires IsImage(img, c) && c.config == BASE_CONFIG && i < |img|
    requires c.(config := PROBE_CONFIG).Fits() && Outside(Regions(c.(config := PROBE_CONFIG)), i)
    ensures Armed(img, c)[i] == 0
  {
    hide Patched, RootDirectory, EfiDirectory, BootDirectory, BootSector, InfoSector, FatTable, Le;
    var fields, new_ := Regions(c), Regions(c.(config := PROBE_CONFIG));
    forall k | 0 <= k < 12 ensures !(fields[k].off <= i < fields[k].off + |fields[k].data|) {
      assert !(new_[k].off <= i < new_[k].off + |new_[k].data|);
      if k != 6 {
        SameRegion(c, k);
      }
    }
    assert !(new_[6].off <= i < new_[6].off + |new_[6].data|);
    assert !(new_[11].off <= i < new_[11].off + |new_[11].data|);
    PatchedAt(img, ClusterOffset(GEOMETRY, 2) + 124, ClusterOffset(GEOMETRY, c.ConfigStart()), i);
  }

  lemma {:induction false} PatchedAt(img: seq<byte>, size: nat, content: nat, i: nat)
    requires size + 4 <= |img| && content + |PROBE_CONFIG| <= |img| && i < |img|
    requires !(size <= i < size + 4) && !(content <= i < content + |PROBE_CONFIG|)
    ensures Patched(img, size, content)[i] == img[i]
  {
    hide Le;
  }

  /** Patching the two places the patcher finds gives the image mkfat would have built from the
      probe configuration, so every other file is unchanged and the FAT leads to the new one. */
  lemma {:induction false} ArmingIsRebuilding(img: seq<byte>, c: Contents)
    requires IsImage(img, c) && c.config == BASE_CONFIG
    ensures IsImage(Armed(img, c), c.(config := PROBE_CONFIG))
  {
    hide Armed, RegionOffset, RegionData;
    var d, armed := c.(config := PROBE_CONFIG), Armed(img, c);
    ProbeRegions(c);
    var fields := Regions(d);
    forall k | 0 <= k < 12
      ensures Slice(armed, fields[k].off, |fields[k].data|) == fields[k].data
    {
      assert fields[k] == Field(RegionOffset(d, k), RegionData(d, k));
      ArmedRegion(img, c, k);
    }
    forall i | 0 <= i < |armed| && Outside(fields, i) ensures armed[i] == Zeros(IMAGE_BYTES)[i] {
      ArmedGap(img, c, i);
    }
  }

  /** After arming, either FAT leads to the probe configuration and to the other files as they were. */
  lemma {:induction false} ArmedReads(img: seq<byte>, c: Contents, copy: nat)
    requires IsImage(img, c) && c.config == BASE_CONFIG && copy < FAT_COUNT
    ensures Mount(Armed(img, c)) == Some(GEOMETRY)
    ensures ReadPath(Armed(img, c), GEOMETRY, copy, 2, [MAKOS_CFG]) == Some(PROBE_CONFIG)
    ensures ReadPath(Armed(img, c), GEOMETRY, copy, 2, [KERNEL_ELF])
            == ReadPath(img, GEOMETRY, copy, 2, [KERNEL_ELF]) == Some(c.kernel)
    ensures ReadPath(Armed(img, c), GEOMETRY, copy, 2, [EFI, BOOT, c.LoaderName()])
            == ReadPath(img, GEOMETRY, copy, 2, [EFI, BOOT, c.LoaderName()]) == Some(c.loader)
  {
    hide IsImage, Armed, ReadPath, Mount;
    ArmingIsRebuilding(img, c);
    ReadBack(img, c, copy);
    ReadBack(Armed(img, c), c.(config := PROBE_CONFIG), copy);
  }

  // The check of the private copy.

  ghost predicate Allowed(i: int, sizeOffset: nat, contentOffset: nat) {
    sizeOffset <= i < sizeOffset + 4 || contentOffset <= i < contentOffset + |PROBE_CONFIG|
  }

  ghost predicate SameButAllowed(a: seq<byte>, b: seq<byte>, sizeOffset: nat, contentOffset: nat, lo: nat, hi: nat)
    requires hi <= |a| && hi <= |b|
  {
    forall i :: lo <= i < hi && !Allowed(i, sizeOffset, contentOffset) ==> a[i] == b[i]
  }

  ghost predicate OnlyConfigDiffers(source: seq<byte>, copy: seq<byte>, sizeOffset: nat, contentOffset: nat) {
    && |source| == |copy|
    && SameButAllowed(source, copy, sizeOffset, contentOffset, 0, |source|)
    && ReadAt(copy, sizeOffset, 4) == Le(|PROBE_CONFIG|, 4)
    && ReadAt(copy, contentOffset, |PROBE_CONFIG|) == PROBE_CONFIG
  }

  /** A chunk of the copy with the bytes of one allowed range taken from the source. */
  function Mask(before: seq<byte>, after: seq<byte>, position: nat, start: nat, length: nat): (r: seq<byte>)
    requires |before| == |after|
    ensures |r| == |after|
    ensures forall i :: 0 <= i < |r| ==> r[i] == if start <= position + i < start + length then before[i] else after[i]
  {
    var left := if start > position then start - position else 0;
    var right := if start + length < position + |before| then start + length - position else |before|;
    if left < right then after[..left] + before[left..right] + after[right..] else after
  }

  const CHUNK := 1024 * 1024

  /** The bytes of one chunk, those of the config masked out. */
  method CompareChunk(source: seq<byte>, copy: seq<byte>, position: nat, length: nat, sizeOffset: nat, contentOffset: nat) returns (same: bool)
    requires position + length <= |source| && position + length <= |copy|
    ensures same <==> SameButAllowed(source, copy, sizeOffset, contentOffset, position, position + length)
  {
    var before, after := source[position..position + length], copy[position..position + length];
    assert forall i :: 0 <= i < length ==> before[i] == source[position + i] && after[i] == copy[position + i];
    after := Mask(before, after, position, sizeOffset, 4);
    after := Mask(before, after, position, contentOffset, |PROBE_CONFIG|);
    same := before == after;
    if !same {
      var i :| 0 <= i < length && before[i] != after[i];
      assert !Allowed(position + i, sizeOffset, contentOffset) && source[position + i] != copy[position + i];
    } else {
      assert forall i :: position <= i < position + length && !Allowed(i, sizeOffset, contentOffset) ==>
          source[i] == before[i - position] == after[i - position] == copy[i];
    }
  }

  method AssertConfigOnlyClone(source: seq<byte>, copy: seq<byte>, sizeOffset: nat, contentOffset: nat) returns (ok: bool)
    ensures ok <==> OnlyConfigDiffers(source, copy, sizeOffset, contentOffset)
  {
    hide Allowed, Le;
    var position := 0;
    while true
      invariant position <= |source| && position <= |copy|
      invariant SameButAllowed(source, copy, sizeOffset, contentOffset, 0, position)
      decreases |source| - position
    {
      var before, after := ReadAt(source, position, CHUNK), ReadAt(copy, position, CHUNK);
      if |before| != |after| {
        return false;
      }
      if before == [] {
        break;
      }
      var same := CompareChunk(source, copy, position, |before|, sizeOffset, contentOffset);
      if !same {
        return false;
      }
      position := position + |before|;
    }
    ok := ReadAt(copy, sizeOffset, 4) == Le(|PROBE_CONFIG|, 4) && ReadAt(copy, contentOffset, |PROBE_CONFIG|) == PROBE_CONFIG;
  }

  lemma {:induction false} PatchedDiffers(img: seq<byte>, size: nat, content: nat)
    requires size + 4 <= content && content + |PROBE_CONFIG| <= |img|
    ensures OnlyConfigDiffers(img, Patched(img, size, content), size, content)
  {
    hide Le;
    var half := Splice(img, size, Le(|PROBE_CONFIG|, 4));
    SpliceRead(img, size, Le(|PROBE_CONFIG|, 4));
    SpliceFrame(half, content, PROBE_CONFIG, size, 4);
    SpliceRead(half, content, PROBE_CONFIG);
  }

  /** What the patcher finds in an image of ours, and that its own check passes. */
  lemma {:induction false} ImageArmable(img: seq<byte>, c: Contents, o: nat)
    requires IsImage(img, c) && Supported(img, o)
    ensures c.config == BASE_CONFIG
    ensures SizeOffset(img, o) + 4 <= ContentOffset(img, o) && ContentOffset(img, o) + |PROBE_CONFIG| <= |img|
    ensures Patched(img, SizeOffset(img, o), ContentOffset(img, o)) == Armed(img, c)
    ensures OnlyConfigDiffers(img, Armed(img, c), SizeOffset(img, o), ContentOffset(img, o))
  {
    hide IsImage, Supported, SizeOffset, ContentOffset, Patched;
    ImageSupported(img, c, o);
    PatchedDiffers(img, SizeOffset(img, o), ContentOffset(img, o));
  }

  /** Every image of ours with the standard configuration is armed; no other image of ours is. */
  method ArmPrivateBoot(source: seq<byte>, ghost c: Contents) returns (r: Result<array<byte>>)
    ensures r.Ok? ==> fresh(r.value) && exists o: nat ::
              && Supported(source, o)
              && OnlyConfigDiffers(source, r.value[..], SizeOffset(source, o), ContentOffset(source, o))
    ensures IsImage(source, c) ==> (r.Ok? <==> c.config == BASE_CONFIG)
    ensures IsImage(source, c) && r.Ok? ==> r.value[..] == Armed(source, c)
  {
    hide IsImage, Supported, SizeOffset, ContentOffset, OnlyConfigDiffers, Armed, Le;
    var offsets := ConfigOffsets(source);
    if IsImage(source, c) {
      ImageSupported(source, c, 96);
    }
    if offsets.Err? {
      return Err;
    }
    var (sizeOffset, contentOffset) := offsets.value;
    ghost var o: nat :| Supported(source, o) && offsets.value == (SizeOffset(source, o), ContentOffset(source, o));
    if IsImage(source, c) {
      ImageArmable(source, c, o);
    }
    if sizeOffset + 4 > |source| || contentOffset + |PROBE_CONFIG| > |source| {
      return Err;
    }
    var copy := new byte[|source|](i requires 0 <= i < |source| => source[i]);
    assert copy[..] == source;
    Blit(copy, sizeOffset, Le(|PROBE_CONFIG|, 4));
    Blit(copy, contentOffset, PROBE_CONFIG);
    assert copy[..] == Patched(source, sizeOffset, contentOffset);
    var ok := AssertConfigOnlyClone(source, copy[..], sizeOffset, contentOffset);
    if !ok {
      return Err;
    }
    return Ok(copy);
  }
}
