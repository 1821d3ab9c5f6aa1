/**
 clone_preserved_regions of scripts/integrate_data_image.py, and a clone with a package
 installed on it.
 */
module PackageClone {
  import opened Bytes
  import opened DiskFile
  import opened PackageFormat
  import opened PackageInstall

  const CHUNK := 1024 * 1024
  const PACKAGE_START := HEADER_LBA * SECTOR
  const PROFILE_START := 1048576 * SECTOR

  /** Zero blocks are skipped, not written; over zeroes that is a copy all the same. */
  method CopyRangeSparse(source: ImageFile, output: ImageFile, start: nat, end: nat) returns (ok: bool)
    requires source != output && start <= end <= |output.data|
    requires Slice(output.data, start, end - start) == Zeros(end - start)
    modifies source`pos, output
    ensures ok <==> end <= |source.data| || start == end
    ensures ok && start < end ==> output.data == Splice(old(output.data), start, Slice(source.data, start, end - start))
    ensures ok && start == end ==> output.data == old(output.data)
  {
    hide Copied, Splice, Zeros;
    ghost var before := output.data;
    source.Seek(start);
    output.Seek(start);
    var remaining: nat := end - start;
    CopiedNothing(before, source.data, start);
    while remaining != 0
      invariant remaining <= end - start && source.pos == output.pos == end - remaining
      invariant Copied(before, output.data, source.data, start, end - remaining)
    {
      var block := source.Read(if remaining < CHUNK then remaining else CHUNK);
      if block == [] {
        return false;
      }
      CopiedNext(before, output.data, source.data, start, end - remaining, block, end);
      if block != Zeros(|block|) {
        output.Write(block);
      } else {
        output.Skip(|block|);
      }
      remaining := remaining - |block|;
    }
    ok := true;
    CopiedAll(before, output.data, source.data, start, end);
  }

  /** The range up to `upTo` has been copied. */
  ghost predicate Copied(before: seq<byte>, now: seq<byte>, source: seq<byte>, start: nat, upTo: nat)
    ensures Copied(before, now, source, start, upTo) ==> |now| == |before| && (start < upTo ==> upTo <= |source|)
  {
    && start <= upTo <= |before|
    && if start == upTo then now == before
       else upTo <= |source| && now == Splice(before, start, Slice(source, start, upTo - start))
  }

  lemma {:induction false} CopiedNothing(before: seq<byte>, source: seq<byte>, start: nat)
    requires start <= |before|
    ensures Copied(before, before, source, start, start)
  {
  }

  lemma {:induction false} CopiedAll(before: seq<byte>, now: seq<byte>, source: seq<byte>, start: nat, end: nat)
    requires Copied(before, now, source, start, end)
    ensures start == end ==> now == before
    ensures start < end ==> end <= |source| && now == Splice(before, start, Slice(source, start, end - start))
  {
  }

  lemma {:induction false} CopiedNext(before: seq<byte>, now: seq<byte>, source: seq<byte>, start: nat, upTo: nat, block: seq<byte>, end: nat)
    requires Copied(before, now, source, start, upTo)
    requires block != [] && upTo + |block| <= |source| && block == Slice(source, upTo, |block|)
    requires upTo + |block| <= end <= |before| && Slice(before, start, end - start) == Zeros(end - start)
    ensures |now| == |before|
    ensures Copied(before, Splice(now, upTo, block), source, start, upTo + |block|)
    ensures block == Zeros(|block|) ==> Splice(now, upTo, block) == now
  {
    assert Slice(source, start, upTo - start) + block == Slice(source, start, upTo + |block| - start);
    SpliceAppend(before, start, Slice(source, start, upTo - start), block);
    if start == upTo {
      assert Splice(before, start, []) == before;
      assert [] + block == block;
    }
    if block == Zeros(|block|) {
      forall i | 0 <= i < |now| ensures Splice(now, upTo, block)[i] == now[i] {
        if upTo <= i < upTo + |block| {
          assert before[i] == Slice(before, start, end - start)[i - start];
        }
      }
    }
  }

  /** A clone keeps everything outside the package region and clears that region. */
  ghost predicate IsClone(source: seq<byte>, clone: seq<byte>, packageStart: nat, profileStart: nat) {
    && |clone| == |source|
    && forall i :: 0 <= i < |clone| ==> clone[i] == if packageStart <= i < profileStart then 0 else source[i]
  }

  method ClonePreservedRegions(source: ImageFile, imageBytes: nat, packageStart: nat, profileStart: nat)
    returns (r: Result<ImageFile>)
    modifies source`pos
    ensures r.Ok? <==> 0 < packageStart < profileStart < imageBytes && |source.data| == imageBytes
    ensures r.Ok? ==> fresh(r.value) && IsClone(source.data, r.value.data, packageStart, profileStart)
  {
    if !(0 < packageStart < profileStart < imageBytes) || |source.data| != imageBytes {
      return Err;
    }
    var output := new ImageFile([]);
    output.Truncate(imageBytes);
    assert output.data == Zeros(imageBytes);
    var ok := CopyRangeSparse(source, output, 0, packageStart);
    assert Slice(output.data, profileStart, imageBytes - profileStart) == Zeros(imageBytes - profileStart);
    ok := CopyRangeSparse(source, output, profileStart, imageBytes);
    return Ok(output);
  }

  /** Installing writes inside the package region only. */
  lemma {:induction false} InstallStaysInside(step: CrcStep, base: seq<byte>, img: seq<byte>, files: seq<File>, i: nat)
    requires IsPackage(step, base, img, files) && i < |img|
    requires i < PACKAGE_START || LIMIT_LBA * SECTOR <= i
    ensures img[i] == base[i]
  {
    hide HeaderSector, EntrySector, Padded, FirstLba;
    assert Elsewhere(files, |files|, i);
  }

  /** Clone, then install: every byte outside the package region is the source image's. */
  method Integrate(step: CrcStep, source: ImageFile, tree: seq<File>, additions: seq<File>)
    returns (r: Result<ImageFile>, ghost base: seq<byte>)
    requires forall j, k :: 0 <= j < k < |tree| ==> tree[j].path != tree[k].path
    requires forall k :: 0 <= k < |additions| ==> 0 < |additions[k].path| <= MAX_PATH && additions[k].path[0] == SLASH
    modifies source`pos
    ensures r.Ok? <==> |source.data| == IMAGE_BYTES && tree != [] && GoodFiles(tree + additions)
    ensures r.Ok? ==> IsPackage(step, base, r.value.data, tree + additions)
    ensures r.Ok? ==> forall i :: 0 <= i < PACKAGE_START || PROFILE_START <= i < IMAGE_BYTES ==> r.value.data[i] == source.data[i]
  {
    hide IsPackage, GoodFiles;
    base := [];
    var clone := ClonePreservedRegions(source, IMAGE_BYTES, PACKAGE_START, PROFILE_START);
    if clone.Err? {
      return Err, base;
    }
    var output := clone.value;
    ghost var cloned := output.data;
    var installed;
    installed, base := Install(step, output, tree, additions);
    if installed.Err? {
      return Err, base;
    }
    forall i | 0 <= i < PACKAGE_START || PROFILE_START <= i < IMAGE_BYTES ensures output.data[i] == source.data[i] {
      InstallStaysInside(step, base, output.data, tree + additions, i);
    }
    return Ok(output), base;
  }
}
