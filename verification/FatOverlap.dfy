/** `fresh_fat` and the data area: where its second write lands among the
    clusters of a volume. */
module FatOverlap {
  import opened Arith
  import opened CacheSpec
  import opened FatSpec
  import opened FatMirror
  import opened FatFile

  /** A block of the data area belongs to one cluster. */
  function ClusterOf(n: Info, limit: nat, b: nat): (c: nat)
    requires Sane(n) && limit >= 2 && DataStart(n) <= b < DataEnd(n, limit)
    ensures 2 <= c < limit && ClusterBlock(n, c) <= b < ClusterBlock(n, c) + BlocksPerCluster(n)
  {
    Positive(n.sectors_per_cluster, n.blocks_per_sector);
    var c := 2 + (b - DataStart(n)) / BlocksPerCluster(n);
    ClusterHolds(n, limit, b, c);
    c
  }

  lemma ClusterHolds(n: Info, limit: nat, b: nat, c: nat)
    requires Sane(n) && limit >= 2 && DataStart(n) <= b < DataEnd(n, limit) && BlocksPerCluster(n) > 0
    requires c == 2 + (b - DataStart(n)) / BlocksPerCluster(n)
    ensures 2 <= c < limit && ClusterBlock(n, c) <= b < ClusterBlock(n, c) + BlocksPerCluster(n)
  {
    hide ClusterBlock, BlocksPerCluster, RootOffset;
    ClusterAt(n, 2);
    ClusterAt(n, limit);
    InRow(b - DataStart(n), BlocksPerCluster(n), limit - 2);
    ClusterAt(n, c);
  }

  lemma InRow(x: nat, step: nat, k: nat)
    requires step > 0 && x < k * step
    ensures x / step < k && (x / step) * step <= x < (x / step) * step + step
  {
    var q := x / step;
    assert x == q * step + x % step;
    if q >= k { Scale(k, q, step); }
  }

  /** The bytes at block b are already those of block k of the table. */
  ghost predicate BlockHolds(v: Disk, vol: Volume, b: nat, data: seq<Byte>) {
    OnDisk(vol, v) && (b + 1) * BSIZE <= |vol.blocks| * BSIZE && Slice(v, vol, b * BSIZE, BSIZE) == data
  }

  /** Storing a block inside the data area keeps every cluster exactly when it
      stores what is there. */
  lemma StoreKeepsIff(v0: Disk, v1: Disk, vol: Volume, n: Info, limit: nat, b: nat, data: seq<Byte>)
    requires Geometry(n, vol, limit) && DataStart(n) <= b < DataEnd(n, limit) && |data| == BSIZE
    requires Overwrites(v0, v1, vol, b * BSIZE, data)
    ensures ClustersKept(v0, v1, vol, n, limit) <==> BlockHolds(v0, vol, b, data)
  {
    var c := ClusterOf(n, limit, b);
    var off := (b - ClusterBlock(n, c)) * BSIZE;
    InsideCluster(n, b, c);
    assert OnVolume(vol, n, c) && ClusterSize(n) > 0;
    hide ClusterBlock, ClusterSize, DataStart, DataEnd, BlocksPerCluster, Geometry, Overwrites, OnVolume;
    InCluster(v0, vol, n, c, off, BSIZE);
    StoreInCluster(v0, v1, vol, n, limit, c, off, data, c);
    var bytes := ClusterBytes(v0, vol, n, c);
    assert ClusterBytes(v1, vol, n, c)[off..off + BSIZE] == data;
    if bytes[off..off + BSIZE] == data {
      assert bytes[..off] + data + bytes[off + BSIZE..] == bytes;
      forall d: nat | 2 <= d < limit
        ensures ClusterBytes(v1, vol, n, d) == ClusterBytes(v0, vol, n, d)
      {
        StoreInCluster(v0, v1, vol, n, limit, c, off, data, d);
      }
    }
  }

  lemma InsideCluster(n: Info, b: nat, c: nat)
    requires n.root_cid >= 2 && c >= 2 && ClusterBlock(n, c) <= b < ClusterBlock(n, c) + BlocksPerCluster(n)
    ensures var off := (b - ClusterBlock(n, c)) * BSIZE;
            off + BSIZE <= ClusterSize(n) && ClusterBlock(n, c) * BSIZE + off == b * BSIZE
  {
    hide ClusterBlock, BlocksPerCluster;
  }

  /** `set_fat` and the files: the two writes for entry cid keep the bytes of
      every cluster exactly when the second one lands outside the data area, or
      on a block that already holds these bytes. */
  lemma EntryWriteIff(v0: Disk, mid: Disk, v1: Disk, vol: Volume, n: Info, limit: nat, fat: seq<nat>, cid: nat)
    requires Geometry(n, vol, limit) && Tables(n, vol, |fat|) && cid < |fat|
    requires TwoWrites(v0, mid, v1, vol, FatStart(n), 2 * FatStart(n), fat, cid)
    ensures var b := 2 * FatStart(n) + cid / 128;
            ClustersKept(v0, v1, vol, n, limit)
            <==> OffData(n, limit, b) || BlockHolds(v0, vol, b, TableBlock(fat, cid / 128))
  {
    hide Geometry, FatStart, FatLen, DataStart, DataEnd, Overwrites, TableBlock, ClustersKept, BlockHolds, Tables;
    var k, data := cid / 128, TableBlock(fat, cid / 128);
    FirstBelow(n, vol, limit, |fat|, k);
    var b := 2 * FatStart(n) + k;
    BlockOffData(v0, mid, vol, n, limit, FatStart(n) + k, data);
    if OffData(n, limit, b) {
      BlockOffData(mid, v1, vol, n, limit, b, data);
      KeptTwice(v0, mid, v1, vol, n, limit);
    } else {
      StoreKeepsIff(mid, v1, vol, n, limit, b, data);
      assert FatStart(n) + k < b;
      FirstHarmless(v0, mid, v1, vol, n, limit, FatStart(n) + k, b, data);
    }
  }

  lemma FirstBelow(n: Info, vol: Volume, limit: nat, items: nat, k: nat)
    requires Geometry(n, vol, limit) && Tables(n, vol, items) && k * 128 < items
    ensures Sane(n) && limit >= 2 && FatStart(n) + k < DataStart(n)
  {
    hide FatStart, FatLen, DataStart;
    TablesBeforeData(n);
  }

  /** The first write, outside the data area, changes neither side. */
  lemma FirstHarmless(v0: Disk, mid: Disk, v1: Disk, vol: Volume, n: Info, limit: nat, a: nat, b: nat, data: seq<Byte>)
    requires ClustersKept(v0, mid, vol, n, limit) && a < b && |data| == BSIZE
    requires Overwrites(v0, mid, vol, a * BSIZE, data) && Overwrites(mid, v1, vol, b * BSIZE, data)
    ensures ClustersKept(mid, v1, vol, n, limit) <==> ClustersKept(v0, v1, vol, n, limit)
    ensures BlockHolds(mid, vol, b, data) <==> BlockHolds(v0, vol, b, data)
  {
    forall c: nat | 2 <= c < limit
      ensures ClusterBytes(mid, vol, n, c) == ClusterBytes(v0, vol, n, c)
    {
    }
    if (b + 1) * BSIZE <= |vol.blocks| * BSIZE {
      assert Slice(mid, vol, b * BSIZE, BSIZE) == Slice(v0, vol, b * BSIZE, BSIZE);
    }
  }

  /** A volume of 512 blocks with 32 reserved ones and two tables of four blocks:
      changing entry 2 replaces all of cluster 26. */
  lemma ClusterReplaced(v0: Disk, mid: Disk, v1: Disk, vol: Volume, fat: seq<nat>)
    requires |vol.blocks| == 512 && |fat| == 512 && TwoWrites(v0, mid, v1, vol, 32, 64, fat, 2)
    ensures var n := Info(32, 2, 4, 0, 2, 1, 1);
            && Tables(n, vol, |fat|) && 26 < ClusterLimit(n, |vol.blocks|, |fat|)
            && OnDisk(vol, v1) && OnVolume(vol, n, 26)
            && ClusterBytes(v1, vol, n, 26) == TableBlock(fat, 0)
  {
    var n := Info(32, 2, 4, 0, 2, 1, 1);
    assert ClusterBlock(n, 26) == 64 && ClusterBlock(n, 2) == 40;
    LimitIsExact(n, vol, |fat|, 26);
    var s, t := ClusterBytes(v1, vol, n, 26), TableBlock(fat, 0);
    forall y | 0 <= y < BSIZE
      ensures s[y] == t[y]
    {
      assert s[y] == ByteAt(v1, vol, 64 * BSIZE + y);
    }
  }
}
