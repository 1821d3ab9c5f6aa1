/**
 install of scripts/mkpackage.py: payloads, records and header written into an image.
 */
module PackageInstall {
  import opened Bytes
  import opened DiskFile
  import opened PackageFormat

  const BLOCK := 1024 * 1024

  /** A payload fills whole sectors. */
  function Padded(content: seq<byte>): (r: seq<byte>)
    ensures |r| == Sectors(|content|) * SECTOR
  {
    content + Zeros(Sectors(|content|) * SECTOR - |content|)
  }

  function PayloadOffset(files: seq<File>, k: nat): nat
    requires k <= |files|
  {
    FirstLba(files, k) * SECTOR
  }

  function RecordOffset(k: nat): nat {
    (ENTRY_LBA + k) * SECTOR
  }

  ghost predicate PayloadAt(img: seq<byte>, files: seq<File>, k: nat)
    requires k < |files|
  {
    && PayloadOffset(files, k) + |Padded(files[k].content)| <= |img|
    && Slice(img, PayloadOffset(files, k), |Padded(files[k].content)|) == Padded(files[k].content)
  }

  ghost predicate RecordAt(step: CrcStep, img: seq<byte>, files: seq<File>, k: nat)
    requires k < |files| && |files[k].path| <= MAX_PATH
  {
    && RecordOffset(k) + SECTOR <= |img|
    && Slice(img, RecordOffset(k), SECTOR) == EntrySector(step, files[k], k, FirstLba(files, k))
  }

  /** Not in the first `k` records or payloads. */
  ghost predicate Elsewhere(files: seq<File>, k: nat, i: nat)
    requires k <= |files|
  {
    !(RecordOffset(0) <= i < RecordOffset(k)) && !(PayloadOffset(files, 0) <= i < PayloadOffset(files, k))
  }

  /** The image with its first `k` files in place and nothing else changed. */
  ghost predicate Part(step: CrcStep, base: seq<byte>, img: seq<byte>, files: seq<File>, k: nat)
    ensures Part(step, base, img, files, k) ==> GoodFiles(files) && k <= |files| && |img| == |base| == IMAGE_BYTES
  {
    && GoodFiles(files) && k <= |files|
    && |img| == |base| == IMAGE_BYTES
    && (forall j :: 0 <= j < k ==> PayloadAt(img, files, j) && RecordAt(step, img, files, j))
    && (forall i :: 0 <= i < |img| && Elsewhere(files, k, i) ==> img[i] == base[i])
  }

  /** An installed package, header included. */
  ghost predicate IsPackage(step: CrcStep, base: seq<byte>, img: seq<byte>, files: seq<File>)
    ensures IsPackage(step, base, img, files) ==> GoodFiles(files) && |img| == |base| == IMAGE_BYTES
  {
    && GoodFiles(files)
    && |img| == |base| == IMAGE_BYTES
    && (forall j :: 0 <= j < |files| ==> PayloadAt(img, files, j) && RecordAt(step, img, files, j))
    && Slice(img, HEADER_LBA * SECTOR, SECTOR) == HeaderSector(step, |files|, EndLba(files))
    && (forall i :: 0 <= i < |img| && Elsewhere(files, |files|, i) && !(HEADER_LBA * SECTOR <= i < RecordOffset(0)) ==>
          img[i] == base[i])
  }

  /** The next payload and record leave those before them alone. */
  lemma {:induction false} PartNext(step: CrcStep, base: seq<byte>, img: seq<byte>, files: seq<File>, k: nat)
    requires Part(step, base, img, files, k) && k < |files|
    ensures PayloadOffset(files, k) + |Padded(files[k].content)| <= |img| && RecordOffset(k) + SECTOR <= PayloadOffset(files, 0)
    ensures Part(step, base,
                 Splice(Splice(img, PayloadOffset(files, k), Padded(files[k].content)),
                        RecordOffset(k), EntrySector(step, files[k], k, FirstLba(files, k))),
                 files, k + 1)
  {
    hide EntrySector, Padded;
    var payload, sector := Padded(files[k].content), EntrySector(step, files[k], k, FirstLba(files, k));
    FileFits(files, k);
    var half := Splice(img, PayloadOffset(files, k), payload);
    var next := Splice(half, RecordOffset(k), sector);
    forall j | 0 <= j < k + 1 ensures PayloadAt(next, files, j) && RecordAt(step, next, files, j) {
      if j < k {
        KeepsFile(step, img, files, k, j, payload, sector);
      } else {
        SpliceRead(img, PayloadOffset(files, k), payload);
        SpliceRead(half, RecordOffset(k), sector);
        SpliceFrame(half, RecordOffset(k), sector, PayloadOffset(files, k), |payload|);
      }
    }
    forall i | 0 <= i < |next| && Elsewhere(files, k + 1, i) ensures next[i] == base[i] {
      assert Elsewhere(files, k, i);
    }
  }

  lemma {:induction false} FileFits(files: seq<File>, k: nat)
    requires GoodFiles(files) && k < |files|
    ensures PayloadOffset(files, k) + |Padded(files[k].content)| == PayloadOffset(files, k + 1) <= LIMIT_LBA * SECTOR
    ensures RecordOffset(k) + SECTOR == RecordOffset(k + 1) <= PayloadOffset(files, 0) <= PayloadOffset(files, k)
  {
    hide Padded;
    if k + 1 < |files| {
      FirstLbaOrder(files, k, |files|);
    }
  }

  lemma {:induction false} KeepsFile(step: CrcStep, img: seq<byte>, files: seq<File>, k: nat, j: nat, payload: seq<byte>, sector: seq<byte>)
    requires GoodFiles(files) && j < k < |files| && |img| == IMAGE_BYTES
    requires PayloadAt(img, files, j) && RecordAt(step, img, files, j)
    requires |payload| == |Padded(files[k].content)| && |sector| == SECTOR
    ensures PayloadOffset(files, k) + |payload| <= |img| && RecordOffset(k) + SECTOR <= |img|
    ensures var next := Splice(Splice(img, PayloadOffset(files, k), payload), RecordOffset(k), sector);
            PayloadAt(next, files, j) && RecordAt(step, next, files, j)
  {
    hide EntrySector, Padded, FirstLba, Sectors;
    FileFits(files, k);
    FileFits(files, j);
    FirstLbaOrder(files, j, k);
    var half := Splice(img, PayloadOffset(files, k), payload);
    var n := |Padded(files[j].content)|;
    SpliceFrame(img, PayloadOffset(files, k), payload, PayloadOffset(files, j), n);
    SpliceFrame(half, RecordOffset(k), sector, PayloadOffset(files, j), n);
    SpliceFrame(img, PayloadOffset(files, k), payload, RecordOffset(j), SECTOR);
    SpliceFrame(half, RecordOffset(k), sector, RecordOffset(j), SECTOR);
  }

  /** The header comes last. */
  lemma {:induction false} PartEnds(step: CrcStep, base: seq<byte>, img: seq<byte>, files: seq<File>)
    requires Part(step, base, img, files, |files|)
    ensures IsPackage(step, base, Splice(img, HEADER_LBA * SECTOR, HeaderSector(step, |files|, EndLba(files))), files)
  {
    hide EntrySector, Padded, HeaderSector, FirstLba;
    var header := HeaderSector(step, |files|, EndLba(files));
    var next := Splice(img, HEADER_LBA * SECTOR, header);
    SpliceRead(img, HEADER_LBA * SECTOR, header);
    forall j | 0 <= j < |files| ensures PayloadAt(next, files, j) && RecordAt(step, next, files, j) {
      assert PayloadAt(img, files, j) && RecordAt(step, img, files, j);
      FileFits(files, j);
      SpliceFrame(img, HEADER_LBA * SECTOR, header, PayloadOffset(files, j), |Padded(files[j].content)|);
      SpliceFrame(img, HEADER_LBA * SECTOR, header, RecordOffset(j), SECTOR);
    }
  }

  // The writer.

  /** A file's bytes in blocks, with the checksum taken on the way. */
  method CopyPayload(step: CrcStep, output: ImageFile, content: seq<byte>) returns (crc: u32)
    requires output.pos + |content| <= |output.data|
    modifies output
    ensures output.data == Splice(old(output.data), old(output.pos), content) && output.pos == old(output.pos) + |content|
    ensures crc == Crc(step, content, 0)
  {
    hide Crc;
    ghost var before, start := output.data, output.pos;
    crc := 0;
    var done := 0;
    CrcNothing(step);
    while done < |content|
      invariant done <= |content| && output.pos == start + done
      invariant output.data == Splice(before, start, content[..done])
      invariant crc == Crc(step, content[..done], 0)
    {
      var next := if done + BLOCK < |content| then done + BLOCK else |content|;
      var block := content[done..next];
      output.Write(block);
      crc := Crc(step, block, crc);
      CrcJoin(step, content[..done], block, 0);
      SpliceAppend(before, start, content[..done], block);
      assert content[..done] + block == content[..next];
      done := next;
    }
    assert content[..done] == content;
  }

  lemma {:induction false} CrcNothing(step: CrcStep)
    ensures Crc(step, [], 0) == 0
  {
  }

  method WriteFile(step: CrcStep, output: ImageFile, ghost base: seq<byte>, files: seq<File>, k: nat, firstLba: nat)
    requires Part(step, base, output.data, files, k) && k < |files| && firstLba == FirstLba(files, k)
    modifies output
    ensures Part(step, base, output.data, files, k + 1)
  {
    hide Part, Crc, EntrySector, FirstLba, Sealed, Le;
    var file := files[k];
    ghost var before := output.data;
    PartNext(step, base, before, files, k);
    output.Seek(firstLba * SECTOR);
    var crc := CopyPayload(step, output, file.content);
    var padding := Sectors(|file.content|) * SECTOR - |file.content|;
    if padding != 0 {
      output.Write(Zeros(padding));
    }
    SpliceAppend(before, firstLba * SECTOR, file.content, Zeros(padding));
    assert output.data == Splice(before, PayloadOffset(files, k), Padded(file.content));
    var record := SealedRecord(step, file, k, firstLba, crc);
    output.Seek((ENTRY_LBA + k) * SECTOR);
    output.Write(record);
  }

  method SealedRecord(step: CrcStep, file: File, index: nat, firstLba: nat, crc: u32) returns (record: seq<byte>)
    requires |file.path| <= MAX_PATH && crc == Crc(step, file.content, 0)
    ensures record == EntrySector(step, file, index, firstLba)
  {
    hide Crc, Le;
    var fields := EntryFields(step, file, index, firstLba);
    record := Stamp(Zeros(SECTOR), fields);
    record := Splice(record, 508, Le(Crc(step, record[..508], 0), 4));
  }

  /** The layout pass: each file's first sector, and the end. Refuses what may not be packaged. */
  method LayOut(tree: seq<File>, additions: seq<File>) returns (r: Result<(seq<nat>, nat)>)
    requires forall j, k :: 0 <= j < k < |tree| ==> tree[j].path != tree[k].path
    requires forall k :: 0 <= k < |additions| ==> 0 < |additions[k].path| <= MAX_PATH && additions[k].path[0] == SLASH
    ensures r.Ok? <==> tree != [] && GoodFiles(tree + additions)
    ensures r.Ok? ==> r.value.1 == EndLba(tree + additions) && |r.value.0| == |tree| + |additions|
    ensures r.Ok? ==> forall k :: 0 <= k < |r.value.0| ==> r.value.0[k] == FirstLba(tree + additions, k)
  {
    hide FirstLba, Sectors;
    var files := tree + additions;
    if tree == [] || |files| > MAX_ENTRIES {
      return Err;
    }
    var starts, next := [], DATA_LBA;
    var names: set<seq<byte>> := {};
    FirstLbaZero(files);
    for k := 0 to |files|
      invariant next == FirstLba(files, k)
      invariant |starts| == k && forall j :: 0 <= j < k ==> starts[j] == FirstLba(files, j)
      invariant forall j :: 0 <= j < k ==> GoodPath(files[j].path)
      invariant names == set j | 0 <= j < k :: files[j].path
      invariant forall i, j :: 0 <= i < j < k ==> files[i].path != files[j].path
    {
      var file := files[k];
      if !GoodPath(file.path) {
        assert !GoodPath(files[k].path);
        return Err;
      }
      if k >= |tree| && file.path in names {
        var j :| 0 <= j < k && files[j].path == file.path;
        assert files[j].path == files[k].path;
        return Err;
      }
      FirstLbaNext(files, k);
      starts := starts + [next];
      next := next + Sectors(|file.content|);
      names := names + {file.path};
    }
    if next > LIMIT_LBA {
      return Err;
    }
    return Ok((starts, next));
  }

  lemma {:induction false} FirstLbaZero(files: seq<File>)
    ensures FirstLba(files, 0) == DATA_LBA
  {
  }

  lemma {:induction false} FirstLbaNext(files: seq<File>, k: nat)
    requires k < |files|
    ensures FirstLba(files, k + 1) == FirstLba(files, k) + Sectors(|files[k].content|)
  {
  }

  /** Installs exactly the acceptable file sets; a refusal leaves the image alone. */
  method Install(step: CrcStep, output: ImageFile, tree: seq<File>, additions: seq<File>)
    returns (r: Result<(nat, nat)>, ghost base: seq<byte>)
    requires forall j, k :: 0 <= j < k < |tree| ==> tree[j].path != tree[k].path
    requires forall k :: 0 <= k < |additions| ==> 0 < |additions[k].path| <= MAX_PATH && additions[k].path[0] == SLASH
    modifies output
    ensures r.Ok? <==> tree != [] && GoodFiles(tree + additions)
    ensures r.Ok? ==> r.value == (|tree| + |additions|, EndLba(tree + additions) * SECTOR)
    ensures r.Ok? ==> IsPackage(step, base, output.data, tree + additions)
    ensures r.Ok? ==> forall i :: 0 <= i < IMAGE_BYTES ==> base[i] == if i < |old(output.data)| then old(output.data)[i] else 0
    ensures r.Err? ==> output.data == old(output.data)
  {
    hide FirstLba, Part, HeaderSector, IsPackage;
    base := output.data;
    var layout := LayOut(tree, additions);
    if layout.Err? {
      return Err, base;
    }
    var files, starts, end := tree + additions, layout.value.0, layout.value.1;
    output.Truncate(if end * SECTOR > IMAGE_BYTES then end * SECTOR else IMAGE_BYTES);
    base := output.data;
    NothingInstalled(step, base, files);
    for k := 0 to |files|
      invariant Part(step, base, output.data, files, k)
    {
      WriteFile(step, output, base, files, k, starts[k]);
    }
    PartEnds(step, base, output.data, files);
    output.Seek(HEADER_LBA * SECTOR);
    output.Write(HeaderSector(step, |files|, end));
    return Ok((|files|, end * SECTOR)), base;
  }

  lemma {:induction false} NothingInstalled(step: CrcStep, base: seq<byte>, files: seq<File>)
    requires GoodFiles(files) && |base| == IMAGE_BYTES
    ensures Part(step, base, base, files, 0)
  {
  }
}
