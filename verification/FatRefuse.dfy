/**
 Which boot images may be armed, in the offsets of the image itself.
 */
module FatRefuse {
  import opened Bytes
  import opened FatFormat
  import opened FatImage
  import opened FatProbe

  ghost predicate SoundBoot(img: seq<byte>) {
    && 512 <= |img|
    && img[510] == 0x55 && img[511] == 0xAA
    && img[82..90] == [70, 65, 84, 51, 50, 32, 32, 32]
    && Num(img, 11, 2) == 512 && img[13] == 1 && img[16] == 2
    && 1 <= Num(img, 14, 2) && 1 <= Num(img, 36, 4) && 2 <= Num(img, 44, 4)
  }

  /** Where cluster 2 lies: behind the reserved sectors and two FATs. */
  ghost function Data(img: seq<byte>): nat
    requires SoundBoot(img)
  {
    (Num(img, 14, 2) + 2 * Num(img, 36, 4)) * 512
  }

  ghost function Root(img: seq<byte>): nat
    requires SoundBoot(img)
  {
    Data(img) + (Num(img, 44, 4) - 2) * 512
  }

  /** One of the sixteen entries of the root's first sector has the name "MAKOS   CFG". */
  ghost predicate NamedAt(img: seq<byte>, o: nat)
    requires SoundBoot(img)
  {
    && o < 512 && o % 32 == 0
    && Root(img) + o + 11 <= |img|
    && img[Root(img) + o..Root(img) + o + 11] == [77, 65, 75, 79, 83, 32, 32, 32, 67, 70, 71]
  }

  ghost function FirstCluster(img: seq<byte>, at: nat): nat
    requires at + 32 <= |img|
  {
    Num(img, at + 20, 2) * 0x1_0000 + Num(img, at + 26, 2)
  }

  /** The FAT word at `at` ends a chain. */
  ghost predicate LastAt(img: seq<byte>, at: nat) {
    at + 4 <= |img| && 0x0FFF_FFF8 <= Num(img, at, 4) % 0x1000_0000
  }

  /** A regular file of 40 bytes in one cluster, which both FATs say is its last, and the standard
      configuration in it. */
  ghost predicate SoundFile(img: seq<byte>, at: nat)
    requires SoundBoot(img) && at + 32 <= |img|
  {
    var cluster := FirstCluster(img, at);
    && img[at + 11] == 0x20
    && 2 <= cluster
    && Num(img, at + 28, 4) == 40
    && LastAt(img, Num(img, 14, 2) * 512 + 4 * cluster)
    && LastAt(img, (Num(img, 14, 2) + Num(img, 36, 4)) * 512 + 4 * cluster)
    && var content := Data(img) + (cluster - 2) * 512;
    && content + 40 <= |img|
    && img[content..content + 40] == BASE_CONFIG
  }

  lemma {:induction false} BootIs(img: seq<byte>)
    ensures BootSupported(img) <==> SoundBoot(img)
    ensures SoundBoot(img) ==>
              && Mount(img) == Some(Geometry(Num(img, 14, 2), Num(img, 36, 4), Num(img, 44, 4)))
              && RootOf(img) == ReadAt(img, Root(img), 512)
  {
    hide FromLe, ReadAt;
    if 512 <= |img| {
      assert Slice(img, 510, 2) == [img[510], img[511]];
    }
  }

  lemma {:induction false} NamedIs(img: seq<byte>, o: nat)
    requires SoundBoot(img)
    ensures Named(ReadAt(img, Root(img), 512), o) <==> NamedAt(img, o)
  {
    hide SoundBoot, Root;
    var root, directory := Root(img), ReadAt(img, Root(img), 512);
    if o < |directory| && o % 32 == 0 {
      if o + 11 <= |directory| {
        assert directory[o..o + 11] == img[root + o..root + o + 11];
      } else {
        assert |directory| < 512 && root + |directory| == |img|;
      }
    }
  }

  lemma {:induction false} FileIs(img: seq<byte>, o: nat)
    requires SoundBoot(img) && o + 32 <= 512 && Root(img) + o + 32 <= |img|
    ensures var directory := ReadAt(img, Root(img), 512);
            && o + 32 <= |directory|
            && ParseEntry(Slice(directory, o, 32)).attributes == img[Root(img) + o + 11]
            && ParseEntry(Slice(directory, o, 32)).cluster == FirstCluster(img, Root(img) + o)
            && ParseEntry(Slice(directory, o, 32)).size == Num(img, Root(img) + o + 28, 4)
  {
    hide SoundBoot, Root, FromLe;
    var root, directory := Root(img), ReadAt(img, Root(img), 512);
    var raw := Slice(directory, o, 32);
    assert directory == Slice(img, root, |directory|);
    SliceSlice(img, root, |directory|, o, 32);
    SliceSlice(img, root + o, 32, 20, 2);
    SliceSlice(img, root + o, 32, 26, 2);
    SliceSlice(img, root + o, 32, 28, 4);
  }

  lemma {:induction false} ChainIs(img: seq<byte>, g: Geometry, copy: nat, cluster: nat)
    ensures EndsChain(img, g, copy, cluster) <==> LastAt(img, FatOffset(g, copy) + cluster * 4)
  {
    hide FromLe;
  }

  lemma {:induction false} ReadIs(img: seq<byte>, at: nat, data: seq<byte>)
    requires data != []
    ensures ReadAt(img, at, |data|) == data <==> at + |data| <= |img| && img[at..at + |data|] == data
  {
  }

  lemma {:induction false} LengthIs(img: seq<byte>, at: nat, o: nat)
    requires o + 32 <= 512
    ensures o + 32 <= |ReadAt(img, at, 512)| <==> at + o + 32 <= |img|
  {
  }

  /** For an entry of the name, the probe's reading is the one by offsets. */
  lemma {:induction false} EntryIs(img: seq<byte>, o: nat)
    requires SoundBoot(img) && BootSupported(img) && NamedAt(img, o)
    ensures o + 32 <= |RootOf(img)| <==> Root(img) + o + 32 <= |img|
    ensures o + 32 <= |RootOf(img)| ==>
              var g, entry := Mount(img).value, ParseEntry(Slice(RootOf(img), o, 32));
              && entry.cluster == FirstCluster(img, Root(img) + o)
              && (SoundFile(img, Root(img) + o) <==>
                    && entry.attributes == 0x20 && 2 <= entry.cluster && entry.size == |BASE_CONFIG|
                    && EndsChain(img, g, 0, entry.cluster) && EndsChain(img, g, 1, entry.cluster)
                    && ReadAt(img, ClusterOffset(g, entry.cluster), entry.size) == BASE_CONFIG)
  {
    hide FromLe, ParseEntry, SoundBoot, BootSupported, EndsChain, LastAt, FirstCluster, Mount, Num, RootOf, Slice, Root, ReadAt;
    BootIs(img);
    LengthIs(img, Root(img), o);
    if Root(img) + o + 32 <= |img| {
      FileIs(img, o);
      var g, cluster := Mount(img).value, FirstCluster(img, Root(img) + o);
      ChainIs(img, g, 0, cluster);
      ChainIs(img, g, 1, cluster);
      if 2 <= cluster {
        ReadIs(img, ClusterOffset(g, cluster), BASE_CONFIG);
      }
    }
  }

  /** An image may be armed exactly if its boot sector is sound, exactly one entry of the root's
      first sector has the configuration's name, and that entry is whole and sound. The words to
      patch are the entry's size and the first cluster's bytes. */
  lemma {:induction false} SupportedExactly(img: seq<byte>, o: nat)
    ensures Supported(img, o) <==>
            && SoundBoot(img)
            && NamedAt(img, o) && (forall p: nat :: NamedAt(img, p) ==> p == o)
            && Root(img) + o + 32 <= |img|
            && SoundFile(img, Root(img) + o)
    ensures Supported(img, o) ==>
              && SizeOffset(img, o) == Root(img) + o + 28
              && ContentOffset(img, o) == Data(img) + (FirstCluster(img, Root(img) + o) - 2) * 512
  {
    hide FromLe, ReadAt, ParseEntry, Named, NamedAt, EndsChain, SoundFile, SoundBoot, BootSupported, FirstCluster, Num;
    BootIs(img);
    if SoundBoot(img) {
      forall p: nat ensures Named(RootOf(img), p) <==> NamedAt(img, p) {
        NamedIs(img, p);
      }
      if NamedAt(img, o) {
        EntryIs(img, o);
      }
    }
  }
}
