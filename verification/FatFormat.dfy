/**
 The FAT32 boot image of scripts/mkfat.py: what is written where, and how a FAT32
 reader finds a file in any image.
 */
module FatFormat {
  import opened Bytes

  const SECTOR := 512
  const IMAGE_BYTES := 64 * 1024 * 1024
  const RESERVED_SECTORS := 32
  const FAT_COUNT := 2
  const EOC := 0x0FFFFFFF
  /** Entries from here on end a chain. */
  const CHAIN_END := 0x0FFFFFF8

  // Sizing.

  /** Sectors of a FAT with an entry for each cluster and the two reserved entries. */
  function Required(clusters: int): int {
    ((clusters + 2) * 4 + SECTOR - 1) / SECTOR
  }

  function ClusterCount(total: nat, fatSectors: nat): int {
    total - RESERVED_SECTORS - FAT_COUNT * fatSectors
  }

  // A FAT32 reader, for any image.

  datatype Geometry = Geometry(reserved: nat, fatSectors: nat, root: nat)

  /** The boot sector of a volume of one-sector clusters with two FATs. */
  function Mount(img: seq<byte>): Option<Geometry> {
    if |img| < SECTOR || Slice(img, 510, 2) != [0x55, 0xAA] then None
    else if FromLe(Slice(img, 11, 2)) != SECTOR || img[13] != 1 || img[16] != FAT_COUNT then None
    else Some(Geometry(FromLe(Slice(img, 14, 2)), FromLe(Slice(img, 36, 4)), FromLe(Slice(img, 44, 4))))
  }

  function FatOffset(g: Geometry, copy: nat): nat {
    (g.reserved + copy * g.fatSectors) * SECTOR
  }

  function ClusterOffset(g: Geometry, cluster: nat): nat
    requires 2 <= cluster
  {
    (g.reserved + FAT_COUNT * g.fatSectors) * SECTOR + (cluster - 2) * SECTOR
  }

  predicate HasCluster(img: seq<byte>, g: Geometry, cluster: nat) {
    2 <= cluster && ClusterOffset(g, cluster) + SECTOR <= |img|
  }

  function Cluster(img: seq<byte>, g: Geometry, cluster: nat): seq<byte>
    requires HasCluster(img, g, cluster)
  {
    Slice(img, ClusterOffset(g, cluster), SECTOR)
  }

  /** An entry of one FAT; the top four bits are reserved. */
  function FatEntry(img: seq<byte>, g: Geometry, copy: nat, cluster: nat): Option<nat> {
    var at := FatOffset(g, copy) + cluster * 4;
    if cluster * 4 + 4 <= g.fatSectors * SECTOR && at + 4 <= |img|
    then Some(FromLe(Slice(img, at, 4)) % 0x1000_0000)
    else None
  }

  /** The clusters of a chain. A chain longer than the FAT revisits a cluster and is refused. */
  function Follow(img: seq<byte>, g: Geometry, copy: nat, cluster: nat, limit: nat): (r: Option<seq<nat>>)
    decreases limit
  {
    if limit == 0 || !HasCluster(img, g, cluster) then None
    else match FatEntry(img, g, copy, cluster)
      case None => None
      case Some(next) =>
        if CHAIN_END <= next then Some([cluster])
        else match Follow(img, g, copy, next, limit - 1)
          case None => None
          case Some(rest) => Some([cluster] + rest)
  }

  function Chain(img: seq<byte>, g: Geometry, copy: nat, cluster: nat): Option<seq<nat>> {
    Follow(img, g, copy, cluster, g.fatSectors * (SECTOR / 4))
  }

  function ReadClusters(img: seq<byte>, g: Geometry, chain: seq<nat>): (r: seq<byte>)
    requires forall k :: 0 <= k < |chain| ==> HasCluster(img, g, chain[k])
    ensures |r| == |chain| * SECTOR
  {
    if chain == [] then []
    else ReadClusters(img, g, chain[..|chain| - 1]) + Cluster(img, g, chain[|chain| - 1])
  }

  datatype DirEntry = DirEntry(name: seq<byte>, attributes: byte, cluster: nat, size: nat)

  function ParseEntry(raw: seq<byte>): DirEntry
    requires |raw| == 32
  {
    DirEntry(raw[..11], raw[11], FromLe(Slice(raw, 20, 2)) * 0x1_0000 + FromLe(Slice(raw, 26, 2)), FromLe(Slice(raw, 28, 4)))
  }

  /** The first entry of that name in a directory cluster, from slot `k` on. */
  function Find(directory: seq<byte>, name: seq<byte>, k: nat): Option<DirEntry>
    requires |directory| == SECTOR && k <= 16
    decreases 16 - k
  {
    if k == 16 || directory[k * 32] == 0 then None
    else
      var entry := ParseEntry(Slice(directory, k * 32, 32));
      if entry.name == name && entry.attributes != 0x08 then Some(entry) else Find(directory, name, k + 1)
  }

  function Lookup(img: seq<byte>, g: Geometry, cluster: nat, name: seq<byte>): Option<DirEntry> {
    if HasCluster(img, g, cluster) then Find(Cluster(img, g, cluster), name, 0) else None
  }

  /** The content of a file, through the given FAT copy. */
  function ReadFile(img: seq<byte>, g: Geometry, copy: nat, entry: DirEntry): Option<seq<byte>> {
    match Chain(img, g, copy, entry.cluster)
    case None => None
    case Some(chain) =>
      if (forall k :: 0 <= k < |chain| ==> HasCluster(img, g, chain[k])) && entry.size <= |chain| * SECTOR
      then Some(ReadClusters(img, g, chain)[..entry.size])
      else None
  }

  /** The file at the end of a path of directories from the root. */
  function ReadPath(img: seq<byte>, g: Geometry, copy: nat, cluster: nat, path: seq<seq<byte>>): Option<seq<byte>>
    requires path != []
    decreases |path|
  {
    match Lookup(img, g, cluster, path[0])
    case None => None
    case Some(entry) =>
      if |path| == 1 then ReadFile(img, g, copy, entry)
      else if entry.attributes == 0x10 then ReadPath(img, g, copy, entry.cluster, path[1..])
      else None
  }
}
