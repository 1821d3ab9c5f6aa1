/**
 verify of scripts/verify_package.py and package_entries of
 scripts/integrate_data_image.py, and that they accept and recover what was installed.
 */
module PackageVerify {
  import opened Bytes
  import opened DiskFile
  import opened PackageFormat
  import opened PackageInstall

  function SectorAt(img: seq<byte>, lba: nat): (r: seq<byte>)
    requires (lba + 1) * SECTOR <= |img|
    ensures |r| == SECTOR
  {
    Slice(img, lba * SECTOR, SECTOR)
  }

  /** The header is intact and its bounds are those of the layout. */
  ghost predicate HeaderOk(step: CrcStep, img: seq<byte>) {
    && IMAGE_BYTES <= |img|
    && var sector := SectorAt(img, HEADER_LBA);
    && sector[..8] == HEADER_MAGIC
    && SealIntact(step, sector)
    && var h := ParseHeader(sector);
    && h.version == 1 && h.count <= MAX_ENTRIES && h.entryLba == ENTRY_LBA && h.dataLba == DATA_LBA
    && h.endLba <= LIMIT_LBA && h.endLba * SECTOR <= |img|
  }

  ghost function HeaderOf(img: seq<byte>): Header
    requires IMAGE_BYTES <= |img|
  {
    ParseHeader(SectorAt(img, HEADER_LBA))
  }

  ghost function EntryOf(img: seq<byte>, k: nat): Entry
    requires IMAGE_BYTES <= |img| && k <= MAX_ENTRIES
  {
    ParseEntry(SectorAt(img, ENTRY_LBA + k))
  }

  /** Record `k` is intact, lies in bounds, and describes a payload with the right checksum. */
  ghost predicate EntryOk(step: CrcStep, img: seq<byte>, endLba: nat, k: nat)
    requires IMAGE_BYTES <= |img| && k <= MAX_ENTRIES && endLba * SECTOR <= |img|
  {
    && SectorAt(img, ENTRY_LBA + k)[..8] == ENTRY_MAGIC
    && SealIntact(step, SectorAt(img, ENTRY_LBA + k))
    && var e := EntryOf(img, k);
    && e.flags == 1 && e.index == k
    && e.path != [] && e.path[0] == SLASH && !Reserved(e.path)
    && e.sectors == Sectors(e.size)
    && DATA_LBA <= e.firstLba && e.firstLba + e.sectors <= endLba
    && Crc(step, Slice(img, e.firstLba * SECTOR, e.size), 0) == e.crc
  }

  ghost predicate DistinctPaths(img: seq<byte>, count: nat)
    requires IMAGE_BYTES <= |img| && count <= MAX_ENTRIES
  {
    forall j, k :: 0 <= j < k < count ==> EntryOf(img, j).path != EntryOf(img, k).path
  }

  ghost predicate Verified(step: CrcStep, img: seq<byte>)
    ensures Verified(step, img) ==> IMAGE_BYTES <= |img| && HeaderOf(img).count <= MAX_ENTRIES
  {
    && HeaderOk(step, img)
    && var h := HeaderOf(img);
    && (forall k :: 0 <= k < h.count ==> EntryOk(step, img, h.endLba, k))
    && DistinctPaths(img, h.count)
  }

  ghost function Total(img: seq<byte>, count: nat): nat
    requires IMAGE_BYTES <= |img| && count <= MAX_ENTRIES
  {
    if count == 0 then 0 else Total(img, count - 1) + EntryOf(img, count - 1).size
  }

  // The verifier.

  /** The checksum of a stretch of the file, block by block. */
  method ReadCrc(step: CrcStep, source: ImageFile, offset: nat, size: nat) returns (crc: u32)
    requires offset + size <= |source.data|
    modifies source`pos
    ensures crc == Crc(step, Slice(source.data, offset, size), 0)
  {
    hide Crc;
    source.Seek(offset);
    crc := 0;
    var remaining: nat := size;
    CrcNothing(step);
    while remaining != 0
      invariant remaining <= size && source.pos == offset + size - remaining
      invariant crc == Crc(step, Slice(source.data, offset, size - remaining), 0)
    {
      var block := source.Read(if remaining < BLOCK then remaining else BLOCK);
      CrcJoin(step, Slice(source.data, offset, size - remaining), block, 0);
      assert Slice(source.data, offset, size - remaining) + block == Slice(source.data, offset, size - remaining + |block|);
      crc := Crc(step, block, crc);
      remaining := remaining - |block|;
    }
  }

  method VerifyEntry(step: CrcStep, source: ImageFile, endLba: nat, k: nat, paths: set<seq<byte>>)
    returns (r: Result<Entry>)
    requires IMAGE_BYTES <= |source.data| && k < MAX_ENTRIES && endLba * SECTOR <= |source.data|
    modifies source`pos
    ensures r.Ok? <==> EntryOk(step, source.data, endLba, k) && EntryOf(source.data, k).path !in paths
    ensures r.Ok? ==> r.value == EntryOf(source.data, k)
  {
    hide Crc, SealIntact, FromLe;
    source.Seek((ENTRY_LBA + k) * SECTOR);
    var sector := source.Read(SECTOR);
    if sector[..8] != ENTRY_MAGIC || !SealIntact(step, sector) {
      return Err;
    }
    var e := ParseEntry(sector);
    if e.flags != 1 || e.index != k || e.path == [] || e.path[0] != SLASH || Reserved(e.path) || e.path in paths
       || e.sectors != Sectors(e.size) || e.firstLba < DATA_LBA || e.firstLba + e.sectors > endLba {
      return Err;
    }
    var crc := ReadCrc(step, source, e.firstLba * SECTOR, e.size);
    return if crc == e.crc then Ok(e) else Err;
  }

  method VerifyHeader(step: CrcStep, source: ImageFile) returns (r: Result<Header>)
    modifies source`pos
    ensures r.Ok? <==> HeaderOk(step, source.data)
    ensures r.Ok? ==> r.value == HeaderOf(source.data)
  {
    hide SealIntact, FromLe;
    source.Seek(HEADER_LBA * SECTOR);
    var sector := source.Read(SECTOR);
    if |sector| != SECTOR || sector[..8] != HEADER_MAGIC || !SealIntact(step, sector) {
      return Err;
    }
    var h := ParseHeader(sector);
    if h.version != 1 || h.count > MAX_ENTRIES || h.entryLba != ENTRY_LBA || h.dataLba != DATA_LBA || h.endLba > LIMIT_LBA
       || |source.data| < IMAGE_BYTES || h.endLba * SECTOR > |source.data| {
      return Err;
    }
    return Ok(h);
  }

  /** Accepts exactly the verified images, with their count and payload total. */
  method Verify(step: CrcStep, source: ImageFile) returns (r: Result<(nat, nat)>)
    modifies source`pos
    ensures r.Ok? <==> Verified(step, source.data)
    ensures r.Ok? ==> r.value == (HeaderOf(source.data).count, Total(source.data, HeaderOf(source.data).count))
  {
    hide HeaderOk, EntryOk, EntryOf, HeaderOf;
    var header := VerifyHeader(step, source);
    if header.Err? {
      return Err;
    }
    HeaderBounds(step, source.data);
    var h := header.value;
    var paths: set<seq<byte>>, total := {}, 0;
    for k := 0 to h.count
      invariant forall j :: 0 <= j < k ==> EntryOk(step, source.data, h.endLba, j)
      invariant paths == set j | 0 <= j < k :: EntryOf(source.data, j).path
      invariant DistinctPaths(source.data, k)
      invariant total == Total(source.data, k)
    {
      var entry := VerifyEntry(step, source, h.endLba, k, paths);
      if entry.Err? {
        return Err;
      }
      paths := paths + {entry.value.path};
      total := total + entry.value.size;
    }
    return Ok((h.count, total));
  }

  lemma {:induction false} HeaderBounds(step: CrcStep, img: seq<byte>)
    requires HeaderOk(step, img)
    ensures IMAGE_BYTES <= |img| && HeaderOf(img).count <= MAX_ENTRIES && HeaderOf(img).endLba * SECTOR <= |img|
  {
  }

  // What was installed verifies.

  lemma {:induction false} InstalledHeader(step: CrcStep, base: seq<byte>, img: seq<byte>, files: seq<File>)
    requires IsPackage(step, base, img, files)
    ensures HeaderOk(step, img) && HeaderOf(img) == Header(1, |files|, ENTRY_LBA, DATA_LBA, EndLba(files))
  {
    hide HeaderSector, SealIntact, FirstLba;
    HeaderRoundTrip(step, |files|, EndLba(files));
  }

  lemma {:induction false} InstalledPayload(step: CrcStep, base: seq<byte>, img: seq<byte>, files: seq<File>, k: nat)
    requires IsPackage(step, base, img, files) && k < |files|
    ensures PayloadOffset(files, k) + |files[k].content| <= |img|
    ensures Slice(img, PayloadOffset(files, k), |files[k].content|) == files[k].content
  {
    hide FirstLba, EntrySector, HeaderSector;
    assert PayloadAt(img, files, k);
    var padded := Padded(files[k].content);
    SliceSlice(img, PayloadOffset(files, k), |padded|, 0, |files[k].content|);
    assert Slice(padded, 0, |files[k].content|) == files[k].content;
  }

  lemma {:induction false} InstalledEntry(step: CrcStep, base: seq<byte>, img: seq<byte>, files: seq<File>, k: nat)
    requires IsPackage(step, base, img, files) && k < |files|
    ensures EntryOf(img, k) == Entry(files[k].path, 1, k, |files[k].content|, FirstLba(files, k),
                                     Sectors(|files[k].content|), Crc(step, files[k].content, 0))
    ensures EntryOk(step, img, EndLba(files), k)
  {
    hide FirstLba, EntrySector, HeaderSector, Crc, Padded, SealIntact, ParseEntry;
    assert RecordAt(step, img, files, k);
    FirstLbaOrder(files, k, |files|);
    EntryRoundTrip(step, files[k], k, FirstLba(files, k));
    InstalledPayload(step, base, img, files, k);
  }

  function ContentBytes(files: seq<File>): nat {
    if files == [] then 0 else ContentBytes(files[..|files| - 1]) + |files[|files| - 1].content|
  }

  lemma {:induction false} InstalledTotal(step: CrcStep, base: seq<byte>, img: seq<byte>, files: seq<File>, k: nat)
    requires IsPackage(step, base, img, files) && k <= |files|
    ensures Total(img, k) == ContentBytes(files[..k])
  {
    hide IsPackage, EntryOf, EntryOk, FirstLba;
    if k > 0 {
      InstalledTotal(step, base, img, files, k - 1);
      InstalledEntry(step, base, img, files, k - 1);
      assert files[..k][..k - 1] == files[..k - 1];
    }
  }

  /** Every installed package verifies, with the exact number of files and bytes. */
  lemma {:induction false} InstallVerifies(step: CrcStep, base: seq<byte>, img: seq<byte>, files: seq<File>)
    requires IsPackage(step, base, img, files)
    ensures Verified(step, img)
    ensures HeaderOf(img).count == |files| && Total(img, |files|) == ContentBytes(files)
  {
    hide IsPackage, EntryOf, EntryOk, FirstLba, HeaderOk, HeaderOf;
    InstalledHeader(step, base, img, files);
    forall k | 0 <= k < |files| ensures EntryOk(step, img, EndLba(files), k) && EntryOf(img, k).path == files[k].path {
      InstalledEntry(step, base, img, files, k);
    }
    InstalledTotal(step, base, img, files, |files|);
    assert files[..|files|] == files;
  }

  // Recovering the entries.

  datatype Extent = Extent(size: nat, offset: nat, content: seq<byte>)

  datatype Range = Range(start: nat, end: nat)

  predicate Clear(a: Range, b: Range) {
    a.end <= b.start || b.end <= a.start
  }

  ghost predicate AllClear(ranges: seq<Range>) {
    forall j, k :: 0 <= j < k < |ranges| ==> Clear(ranges[j], ranges[k])
  }

  predicate Before(a: Range, b: Range) {
    a.start < b.start || (a.start == b.start && a.end <= b.end)
  }

  /** Python's sorted, by start and end. */
  function Sorted(ranges: seq<Range>): seq<Range> {
    if ranges == [] then [] else Insert(Sorted(ranges[..|ranges| - 1]), ranges[|ranges| - 1])
  }

  function Insert(sorted: seq<Range>, r: Range): seq<Range> {
    if sorted == [] || Before(r, sorted[0]) then [r] + sorted else [sorted[0]] + Insert(sorted[1..], r)
  }

  ghost predicate InOrder(ranges: seq<Range>) {
    forall j, k :: 0 <= j < k < |ranges| ==> Before(ranges[j], ranges[k])
  }

  ghost predicate ClearOfAll(ranges: seq<Range>, r: Range) {
    forall k :: 0 <= k < |ranges| ==> Clear(ranges[k], r)
  }

  lemma {:induction false} InsertOrder(sorted: seq<Range>, r: Range)
    requires InOrder(sorted)
    ensures InOrder(Insert(sorted, r)) && |Insert(sorted, r)| == |sorted| + 1
    ensures forall k :: 0 <= k < |sorted| + 1 ==> Insert(sorted, r)[k] == r || Insert(sorted, r)[k] in sorted
  {
    if sorted != [] && !Before(r, sorted[0]) {
      InsertOrder(sorted[1..], r);
      assert Insert(sorted, r)[1..] == Insert(sorted[1..], r);
    }
  }

  lemma {:induction false} InsertClear(sorted: seq<Range>, r: Range)
    ensures AllClear(Insert(sorted, r)) <==> AllClear(sorted) && ClearOfAll(sorted, r)
    ensures forall other :: ClearOfAll(Insert(sorted, r), other) <==> ClearOfAll(sorted, other) && Clear(r, other)
  {
    hide AllClear, ClearOfAll, Before;
    ConsClear(r, sorted);
    if sorted != [] && !Before(r, sorted[0]) {
      var head, tail := sorted[0], sorted[1..];
      InsertClear(tail, r);
      ConsClear(head, tail);
      ConsClear(head, Insert(tail, r));
      assert sorted == [head] + tail;
    }
  }

  lemma {:induction false} ConsClear(r: Range, ranges: seq<Range>)
    ensures AllClear([r] + ranges) <==> AllClear(ranges) && ClearOfAll(ranges, r)
    ensures forall other :: ClearOfAll([r] + ranges, other) <==> ClearOfAll(ranges, other) && Clear(r, other)
  {
    var all := [r] + ranges;
    if AllClear(all) {
      forall j, k | 0 <= j < k < |ranges| ensures Clear(ranges[j], ranges[k]) {
        assert Clear(all[j + 1], all[k + 1]);
      }
      forall k | 0 <= k < |ranges| ensures Clear(ranges[k], r) {
        assert Clear(all[0], all[k + 1]);
      }
    }
    forall other: Range
      ensures ClearOfAll(all, other) <==> ClearOfAll(ranges, other) && Clear(r, other)
    {
      if ClearOfAll(all, other) {
        forall k | 0 <= k < |ranges| ensures Clear(ranges[k], other) {
          assert Clear(all[k + 1], other);
        }
        assert Clear(all[0], other);
      }
    }
  }

  ghost predicate Proper(ranges: seq<Range>) {
    forall k :: 0 <= k < |ranges| ==> ranges[k].start <= ranges[k].end
  }

  lemma {:induction false} SortedKeeps(ranges: seq<Range>)
    requires Proper(ranges)
    ensures InOrder(Sorted(ranges)) && Proper(Sorted(ranges)) && |Sorted(ranges)| == |ranges|
    ensures AllClear(Sorted(ranges)) <==> AllClear(ranges)
    ensures forall other :: ClearOfAll(Sorted(ranges), other) <==> ClearOfAll(ranges, other)
  {
    hide Insert;
    if ranges != [] {
      var n := |ranges| - 1;
      var rest, last := ranges[..n], ranges[n];
      SortedKeeps(rest);
      InsertOrder(Sorted(rest), last);
      InsertClear(Sorted(rest), last);
      SnocClear(rest, last);
      assert rest + [last] == ranges;
    }
  }

  lemma {:induction false} SnocClear(ranges: seq<Range>, r: Range)
    ensures AllClear(ranges + [r]) <==> AllClear(ranges) && ClearOfAll(ranges, r)
    ensures forall other :: ClearOfAll(ranges + [r], other) <==> ClearOfAll(ranges, other) && Clear(r, other)
  {
    var all := ranges + [r];
    if AllClear(all) {
      forall j, k | 0 <= j < k < |ranges| ensures Clear(ranges[j], ranges[k]) {
        assert Clear(all[j], all[k]);
      }
      forall k | 0 <= k < |ranges| ensures Clear(ranges[k], r) {
        assert Clear(all[k], all[|ranges|]);
      }
    }
    forall other: Range
      ensures ClearOfAll(all, other) <==> ClearOfAll(ranges, other) && Clear(r, other)
    {
      if ClearOfAll(all, other) {
        forall k | 0 <= k < |ranges| ensures Clear(ranges[k], other) {
          assert Clear(all[k], other);
        }
        assert Clear(all[|ranges|], other);
      }
    }
  }

  /** In order, ranges are clear of each other exactly if neighbours are. */
  lemma {:induction false} NeighboursClear(ranges: seq<Range>)
    requires InOrder(ranges) && Proper(ranges)
    ensures AllClear(ranges) <==> forall k :: 0 <= k < |ranges| - 1 ==> ranges[k].end <= ranges[k + 1].start
  {
    if AllClear(ranges) {
      forall k | 0 <= k < |ranges| - 1 ensures ranges[k].end <= ranges[k + 1].start {
        assert Clear(ranges[k], ranges[k + 1]) && Before(ranges[k], ranges[k + 1]);
      }
    }
    if forall k :: 0 <= k < |ranges| - 1 ==> ranges[k].end <= ranges[k + 1].start {
      forall j, k | 0 <= j < k < |ranges| ensures Clear(ranges[j], ranges[k]) {
        assert ranges[j].end <= ranges[j + 1].start;
        assert j + 1 < k ==> Before(ranges[j + 1], ranges[k]);
      }
    }
  }

  method CheckOverlaps(occupied: seq<Range>) returns (ok: bool)
    requires Proper(occupied)
    ensures ok <==> AllClear(occupied)
  {
    hide Sorted, Clear;
    var sorted := Sorted(occupied);
    SortedKeeps(occupied);
    NeighboursClear(sorted);
    var k := 1;
    while k < |sorted|
      invariant 1 <= k && forall j :: 0 <= j < k - 1 && j + 1 < |sorted| ==> sorted[j].end <= sorted[j + 1].start
    {
      if sorted[k - 1].end > sorted[k].start {
        return false;
      }
      k := k + 1;
    }
    return true;
  }

  ghost function ExtentOf(img: seq<byte>, k: nat): Extent
    requires IMAGE_BYTES <= |img| && k < MAX_ENTRIES
    requires EntryOf(img, k).firstLba * SECTOR + EntryOf(img, k).size <= |img|
  {
    var e := EntryOf(img, k);
    Extent(e.size, e.firstLba * SECTOR, Slice(img, e.firstLba * SECTOR, e.size))
  }

  ghost predicate InImage(img: seq<byte>, count: nat)
    requires IMAGE_BYTES <= |img| && count <= MAX_ENTRIES
  {
    forall k :: 0 <= k < count ==> EntryOf(img, k).firstLba * SECTOR + EntryOf(img, k).size <= |img|
  }

  lemma {:induction false} VerifiedInImage(step: CrcStep, img: seq<byte>)
    requires Verified(step, img)
    ensures InImage(img, HeaderOf(img).count)
  {
    hide EntryOf, SealIntact, Crc;
    forall k | 0 <= k < HeaderOf(img).count ensures EntryOf(img, k).firstLba * SECTOR + EntryOf(img, k).size <= |img| {
      assert EntryOk(step, img, HeaderOf(img).endLba, k);
    }
  }

  /** The payload ranges of the first `count` records. */
  ghost function Occupied(img: seq<byte>, count: nat): (r: seq<Range>)
    requires IMAGE_BYTES <= |img| && count <= MAX_ENTRIES
    ensures |r| == count && Proper(r)
    ensures forall k :: 0 <= k < count ==>
              r[k] == Range(EntryOf(img, k).firstLba * SECTOR, EntryOf(img, k).firstLba * SECTOR + EntryOf(img, k).size)
  {
    seq(count, k requires 0 <= k < count =>
      Range(EntryOf(img, k).firstLba * SECTOR, EntryOf(img, k).firstLba * SECTOR + EntryOf(img, k).size))
  }

  /** The bytes of a payload, as they are fed to the digest. */
  method ReadPayload(source: ImageFile, offset: nat, size: nat) returns (content: seq<byte>)
    requires offset + size <= |source.data|
    modifies source`pos
    ensures content == Slice(source.data, offset, size)
  {
    source.Seek(offset);
    content := [];
    var remaining: nat := size;
    while remaining != 0
      invariant remaining <= size && source.pos == offset + size - remaining
      invariant content == Slice(source.data, offset, size - remaining)
    {
      var block := source.Read(if remaining < BLOCK then remaining else BLOCK);
      assert Slice(source.data, offset, size - remaining) + block == Slice(source.data, offset, size - remaining + |block|);
      content := content + block;
      remaining := remaining - |block|;
    }
  }

  method ReadEntry(source: ImageFile, k: nat) returns (e: Entry, extent: Extent)
    requires IMAGE_BYTES <= |source.data| && k < MAX_ENTRIES
    requires EntryOf(source.data, k).firstLba * SECTOR + EntryOf(source.data, k).size <= |source.data|
    modifies source`pos
    ensures e == EntryOf(source.data, k) && extent == ExtentOf(source.data, k)
  {
    hide FromLe;
    source.Seek((ENTRY_LBA + k) * SECTOR);
    var raw := source.Read(SECTOR);
    e := ParseEntry(raw);
    var content := ReadPayload(source, e.firstLba * SECTOR, e.size);
    extent := Extent(e.size, e.firstLba * SECTOR, content);
  }

  /** The first `count` records by path. */
  ghost predicate Collected(img: seq<byte>, result: map<seq<byte>, Extent>, count: nat)
    requires IMAGE_BYTES <= |img| && count <= MAX_ENTRIES && InImage(img, count)
  {
    && result.Keys == (set k | 0 <= k < count :: EntryOf(img, k).path)
    && forall k :: 0 <= k < count ==> EntryOf(img, k).path in result && result[EntryOf(img, k).path] == ExtentOf(img, k)
  }

  lemma {:induction false} CollectedNext(img: seq<byte>, result: map<seq<byte>, Extent>, k: nat)
    requires IMAGE_BYTES <= |img| && k < MAX_ENTRIES && InImage(img, k + 1) && DistinctPaths(img, k + 1)
    requires Collected(img, result, k)
    ensures Collected(img, result[EntryOf(img, k).path := ExtentOf(img, k)], k + 1)
  {
    hide EntryOf, ExtentOf;
    var next := result[EntryOf(img, k).path := ExtentOf(img, k)];
    assert next.Keys == result.Keys + {EntryOf(img, k).path};
  }

  /** Every path with its extent and bytes, for exactly the verified images whose payloads do not
      overlap. */
  method PackageEntries(step: CrcStep, source: ImageFile) returns (r: Result<map<seq<byte>, Extent>>)
    modifies source`pos
    ensures r.Ok? <==> Verified(step, source.data) && AllClear(Occupied(source.data, HeaderOf(source.data).count))
    ensures r.Ok? ==> InImage(source.data, HeaderOf(source.data).count)
                      && Collected(source.data, r.value, HeaderOf(source.data).count)
  {
    hide EntryOf, ExtentOf, HeaderOf, HeaderOk, EntryOk, AllClear, Collected;
    var verified := Verify(step, source);
    if verified.Err? {
      return Err;
    }
    ghost var img := source.data;
    VerifiedInImage(step, img);
    var count := verified.value.0;
    var result: map<seq<byte>, Extent>, occupied: seq<Range> := map[], [];
    NothingCollected(img);
    for k := 0 to count
      invariant source.data == img && Collected(img, result, k)
      invariant occupied == Occupied(img, k)
    {
      var e, extent := ReadEntry(source, k);
      ExtentFields(img, k);
      CollectedNext(img, result, k);
      result := result[e.path := extent];
      occupied := occupied + [Range(extent.offset, extent.offset + extent.size)];
    }
    var ok := CheckOverlaps(occupied);
    return if ok then Ok(result) else Err;
  }

  lemma {:induction false} NothingCollected(img: seq<byte>)
    requires IMAGE_BYTES <= |img|
    ensures Collected(img, map[], 0)
  {
  }

  lemma {:induction false} ExtentFields(img: seq<byte>, k: nat)
    requires IMAGE_BYTES <= |img| && k < MAX_ENTRIES
    requires EntryOf(img, k).firstLba * SECTOR + EntryOf(img, k).size <= |img|
    ensures ExtentOf(img, k).offset == EntryOf(img, k).firstLba * SECTOR && ExtentOf(img, k).size == EntryOf(img, k).size
  {
    hide EntryOf;
  }

  /** Of an installed package every path is recovered with its exact bytes, empty files included,
      and no two payloads overlap. */
  lemma {:induction false} InstallRecovers(step: CrcStep, base: seq<byte>, img: seq<byte>, files: seq<File>)
    requires IsPackage(step, base, img, files)
    ensures Verified(step, img) && HeaderOf(img).count == |files| && AllClear(Occupied(img, |files|))
    ensures InImage(img, |files|)
    ensures forall k :: 0 <= k < |files| ==>
              && EntryOf(img, k).path == files[k].path
              && ExtentOf(img, k) == Extent(|files[k].content|, PayloadOffset(files, k), files[k].content)
  {
    hide IsPackage, EntryOf, EntryOk, HeaderOk, HeaderOf, FirstLba, Verified;
    InstallVerifies(step, base, img, files);
    VerifiedInImage(step, img);
    forall k | 0 <= k < |files|
      ensures EntryOf(img, k).path == files[k].path && EntryOf(img, k).firstLba == FirstLba(files, k) && EntryOf(img, k).size == |files[k].content|
      ensures ExtentOf(img, k) == Extent(|files[k].content|, PayloadOffset(files, k), files[k].content)
    {
      InstalledEntry(step, base, img, files, k);
      InstalledPayload(step, base, img, files, k);
    }
    forall j, k | 0 <= j < k < |files| ensures Clear(Occupied(img, |files|)[j], Occupied(img, |files|)[k]) {
      FirstLbaOrder(files, j, k);
    }
  }
}
