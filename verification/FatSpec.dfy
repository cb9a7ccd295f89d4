/** The FAT of `kernel/fat32.c` on values: chains of clusters, the layout of a
    volume, and a file as the bytes of its chain. */
module FatSpec {
  import opened Arith
  import opened CacheSpec

  const SLOT: nat := 32      // sizeof(struct sfn_entry) and sizeof(struct lfn_entry)
  const END_CID: nat := 0x0fff_fff8
  const WORD32: nat := 0x1_0000_0000

  /** FAT32_CID_IS_VALID: not free, not reserved, and bits 4 to 27 not all set. */
  predicate IsValidCid(c: nat) {
    (c / 16) % 0x100_0000 != 0xff_ffff && c != 0 && c != 1
  }

  /** Every entry of a table of this size names a valid cluster. */
  lemma SmallIsValid(c: nat)
    requires 2 <= c < 0x0fff_fff0
    ensures IsValidCid(c)
  {
  }

  /** A chain: clusters of the volume, each once, linked by the table and closed
      by an end mark. */
  ghost predicate IsChain(fat: seq<nat>, ch: seq<nat>) {
    && ch != []
    && (forall i | 0 <= i < |ch| :: 2 <= ch[i] < |fat| && IsValidCid(ch[i]))
    && (forall i, j | 0 <= i < j < |ch| :: ch[i] != ch[j])
    && (forall i {:trigger fat[ch[i]]} | 0 <= i < |ch| - 1 :: fat[ch[i]] == ch[i + 1])
    && fat[ch[|ch| - 1]] != 0 && !IsValidCid(fat[ch[|ch| - 1]])
  }

  predicate Apart(c: seq<nat>, d: seq<nat>) {
    forall x | x in c :: x !in d
  }

  /** `get_free_cluster`: the lowest free cluster, -1 when there is none. */
  function FreeFrom(fat: seq<nat>, i: nat): (r: int)
    requires i <= |fat|
    ensures r == -1 || (i <= r < |fat| && fat[r] == 0)
    ensures r == -1 <==> forall j | i <= j < |fat| :: fat[j] != 0
    ensures r != -1 ==> forall j | i <= j < r :: fat[j] != 0
    decreases |fat| - i
  {
    if i == |fat| then -1 else if fat[i] == 0 then i else FreeFrom(fat, i + 1)
  }

  /** The free clusters from i below hi. */
  function FreeIn(fat: seq<nat>, i: nat, hi: nat): nat
    requires i <= hi <= |fat|
    decreases hi - i
  {
    if i == hi then 0 else (if fat[i] == 0 then 1 else 0) + FreeIn(fat, i + 1, hi)
  }

  lemma {:induction false} CountChange(fat: seq<nat>, i: nat, hi: nat, c: nat, v: nat)
    requires i <= hi <= |fat| && c < |fat|
    ensures FreeIn(fat[c := v], i, hi)
         == FreeIn(fat, i, hi)
            + (if c < i || c >= hi || (v == 0) == (fat[c] == 0) then 0 else if v == 0 then 1 else -1)
    decreases hi - i
  {
    if i < hi { CountChange(fat, i + 1, hi, c, v); }
  }

  lemma {:induction false} CountZero(fat: seq<nat>, i: nat, hi: nat)
    requires i <= hi <= |fat|
    ensures FreeIn(fat, i, hi) == 0 <==> forall j | i <= j < hi :: fat[j] != 0
    decreases hi - i
  {
    if i < hi { CountZero(fat, i + 1, hi); }
  }

  /** `add_cluster` after the cluster last: the new table, and the new cluster or
      -1 with nothing changed. */
  function AddCluster(fat: seq<nat>, last: nat): (seq<nat>, int)
    requires |fat| >= 2 && last < |fat|
  {
    var n := FreeFrom(fat, 2);
    if n == -1 then (fat, -1) else (fat[last := n][n := END_CID], n)
  }

  lemma AddedChain(fat: seq<nat>, ch: seq<nat>, n: nat)
    requires 2 <= |fat| <= 0x0fff_fff0 && IsChain(fat, ch) && 2 <= n < |fat| && fat[n] == 0
    ensures n !in ch && IsChain(fat[ch[|ch| - 1] := n][n := END_CID], ch + [n])
  {
    var last := ch[|ch| - 1];
    var fat' := fat[last := n][n := END_CID];
    InChainIsUsed(fat, ch, n);
    SmallIsValid(n);
    assert !IsValidCid(END_CID);
    var ch' := ch + [n];
    assert forall i | 0 <= i < |ch| - 1 :: ch[i] != last;
    forall i | 0 <= i < |ch'| - 1
      ensures fat'[ch'[i]] == ch'[i + 1]
    {
      if i < |ch| - 1 { assert fat[ch[i]] == ch[i + 1]; }
    }
  }

  /** Adding a cluster to a chain appends exactly one free cluster and lowers the
      free count by one; it fails exactly when none is free. */
  lemma AddClusterAppends(fat: seq<nat>, ch: seq<nat>)
    requires 2 <= |fat| <= 0x0fff_fff0 && IsChain(fat, ch)
    ensures var (fat', n) := AddCluster(fat, ch[|ch| - 1]);
            && |fat'| == |fat|
            && (n == -1 <==> FreeIn(fat, 2, |fat|) == 0)
            && (n == -1 ==> fat' == fat)
            && (n != -1 ==>
                  && 2 <= n < |fat| && fat[n] == 0 && n !in ch && IsChain(fat', ch + [n])
                  && fat' == fat[ch[|ch| - 1] := n][n := 0x0fff_fff8]
                  && FreeIn(fat', 2, |fat|) == FreeIn(fat, 2, |fat|) - 1)
  {
    var last := ch[|ch| - 1];
    var n := FreeFrom(fat, 2);
    CountZero(fat, 2, |fat|);
    if n != -1 {
      AddedChain(fat, ch, n);
      TakenCounts(fat, last, 2, |fat|);
    }
  }

  /** Taking cluster n lowers the count of every range that holds it. */
  lemma TakenCounts(fat: seq<nat>, last: nat, i: nat, hi: nat)
    requires 2 <= |fat| && last < |fat| && fat[last] != 0 && i <= hi <= |fat| && FreeFrom(fat, 2) != -1
    ensures var (fat', n) := AddCluster(fat, last);
            FreeIn(fat', i, hi) == FreeIn(fat, i, hi) - (if i <= n < hi then 1 else 0)
  {
    var n := FreeFrom(fat, 2);
    CountChange(fat, i, hi, last, n);
    CountChange(fat[last := n], i, hi, n, END_CID);
  }

  lemma InChainIsUsed(fat: seq<nat>, ch: seq<nat>, c: nat)
    requires IsChain(fat, ch) && c < |fat| && fat[c] == 0
    ensures c !in ch
  {
    forall i | 0 <= i < |ch|
      ensures fat[ch[i]] != 0
    {
      if i < |ch| - 1 { assert fat[ch[i]] == ch[i + 1]; }
    }
  }

  lemma OtherChainsKept(fat: seq<nat>, ch: seq<nat>, d: seq<nat>)
    requires 2 <= |fat| <= 0x0fff_fff0 && IsChain(fat, ch) && IsChain(fat, d) && Apart(d, ch)
    ensures var (fat', n) := AddCluster(fat, ch[|ch| - 1]);
            IsChain(fat', d) && (n != -1 ==> Apart(d, ch + [n]))
  {
    var (fat', n) := AddCluster(fat, ch[|ch| - 1]);
    if n != -1 {
      InChainIsUsed(fat, d, n);
      var last := ch[|ch| - 1];
      assert last in ch;
      assert forall i | 0 <= i < |d| :: d[i] in d;
      forall i | 0 <= i < |d|
        ensures fat'[d[i]] == fat[d[i]]
      {
      }
    }
  }

  /* ---- layout ---- */

  /** The boot-sector numbers `fat32_superblock_init` keeps. */
  datatype Info = Info(fat_offset: nat, fat_cnt: nat, sectors_per_fat: nat, hidden_sectors: nat,
                       root_cid: nat, sectors_per_cluster: nat, blocks_per_sector: nat)

  /** info->root_offset; the subtraction is done on non-negative values only. */
  function RootOffset(n: Info): nat
    requires n.root_cid >= 2
  {
    n.fat_offset + n.fat_cnt * n.sectors_per_fat + n.hidden_sectors + (n.root_cid - 2) * n.sectors_per_cluster
  }

  /** `get_bid_by_cluster`. */
  function ClusterBlock(n: Info, cid: nat): nat
    requires n.root_cid >= 2 && cid >= 2
  {
    (RootOffset(n) + (cid - 2) * n.sectors_per_cluster) * n.blocks_per_sector
  }

  /** The address the format prescribes for a cluster: the data area starts right
      after the tables, with cluster 2 (Microsoft FAT specification 1.03,
      section "FAT Data Structure"). */
  function PrescribedBlock(n: Info, cid: nat): nat
    requires cid >= 2
  {
    (n.fat_offset + n.fat_cnt * n.sectors_per_fat + (cid - 2) * n.sectors_per_cluster) * n.blocks_per_sector
  }

  /** The code's address is the prescribed one exactly on volumes without hidden
      sectors whose root directory starts at cluster 2. */
  lemma ClusterAddressIff(n: Info, cid: nat)
    requires n.root_cid >= 2 && cid >= 2 && n.sectors_per_cluster > 0 && n.blocks_per_sector > 0
    ensures ClusterBlock(n, cid) == PrescribedBlock(n, cid) <==> n.hidden_sectors == 0 && n.root_cid == 2
  {
    var extra := n.hidden_sectors + (n.root_cid - 2) * n.sectors_per_cluster;
    var base := n.fat_offset + n.fat_cnt * n.sectors_per_fat + (cid - 2) * n.sectors_per_cluster;
    assert ClusterBlock(n, cid) == (base + extra) * n.blocks_per_sector;
    Distribute(base, extra, n.blocks_per_sector);
    if n.root_cid > 2 { Positive(n.root_cid - 2, n.sectors_per_cluster); }
    if extra > 0 { Positive(extra, n.blocks_per_sector); }
  }

  function FatStart(n: Info): nat { n.fat_offset * n.blocks_per_sector }
  function FatLen(n: Info): nat { n.sectors_per_fat * n.blocks_per_sector }
  function BlocksPerCluster(n: Info): nat { n.sectors_per_cluster * n.blocks_per_sector }
  function ClusterSize(n: Info): nat { BlocksPerCluster(n) * BSIZE }

  /** Where the code puts cluster 2. */
  function DataStart(n: Info): nat
    requires n.root_cid >= 2
  {
    ClusterBlock(n, 2)
  }

  /** Sizes of at least one block. */
  predicate Sane(n: Info) {
    n.root_cid >= 2 && n.sectors_per_cluster > 0 && n.blocks_per_sector > 0
  }

  predicate OnVolume(vol: Volume, n: Info, c: nat) {
    n.root_cid >= 2 && c >= 2 && ClusterBlock(n, c) + BlocksPerCluster(n) <= |vol.blocks|
  }

  /** Two more than the number of clusters the volume has room for and the table
      has entries for. The table has at least that many entries, and as a rule
      some more, since it fills whole sectors. */
  function ClusterLimit(n: Info, blocks: nat, items: nat): (limit: nat)
    requires Sane(n) && items >= 2
    ensures 2 <= limit <= items
  {
    Positive(n.sectors_per_cluster, n.blocks_per_sector);
    var fit := if DataStart(n) <= blocks then (blocks - DataStart(n)) / BlocksPerCluster(n) else 0;
    if 2 + fit < items then 2 + fit else items
  }

  /** Clusters 2 to limit - 1 are inside the volume and do not overlap. */
  ghost predicate Geometry(n: Info, vol: Volume, limit: nat) {
    && Sane(n) && limit >= 2
    && (forall c | 2 <= c < limit :: OnVolume(vol, n, c))
    && (forall c, d {:trigger ClusterBlock(n, c), ClusterBlock(n, d)} | 2 <= c < d < limit ::
          ClusterBlock(n, c) + BlocksPerCluster(n) <= ClusterBlock(n, d))
  }

  /** The clusters below the limit are exactly those inside the volume. */
  lemma LimitIsExact(n: Info, vol: Volume, items: nat, c: nat)
    requires Sane(n) && 2 <= c < items
    ensures c < ClusterLimit(n, |vol.blocks|, items) <==> OnVolume(vol, n, c)
  {
    Positive(n.sectors_per_cluster, n.blocks_per_sector);
    ClusterAt(n, c);
    ClusterAt(n, 2);
    hide ClusterBlock;
    RoomFor(|vol.blocks|, DataStart(n), c - 2, BlocksPerCluster(n));
  }

  lemma RoomFor(blocks: nat, start: nat, k: nat, step: nat)
    requires step > 0
    ensures start + k * step + step <= blocks <==> start <= blocks && k < (blocks - start) / step
  {
    NextMultiple(k, step);
    if start <= blocks {
      var q := (blocks - start) / step;
      assert blocks - start == q * step + (blocks - start) % step;
      if k < q { Scale(k + 1, q, step); } else { Scale(q, k, step); }
    }
  }

  /** Any volume with sane sizes meets the layout, up to its limit. */
  lemma LimitIsGeometry(n: Info, vol: Volume, items: nat)
    requires Sane(n) && items >= 2
    ensures Geometry(n, vol, ClusterLimit(n, |vol.blocks|, items))
  {
    var limit := ClusterLimit(n, |vol.blocks|, items);
    forall c | 2 <= c < limit
      ensures OnVolume(vol, n, c)
    {
      LimitIsExact(n, vol, items, c);
    }
    forall c, d | 2 <= c < d < limit
      ensures ClusterBlock(n, c) + BlocksPerCluster(n) <= ClusterBlock(n, d)
    {
      TwoClusters(n, c, d);
    }
  }

  /** The table in memory is the one the boot sector announces, of one table at
      least, and the blocks `fresh_fat` writes are inside the volume. */
  predicate Tables(n: Info, vol: Volume, items: nat) {
    && Sane(n) && items == FatLen(n) * 128 && 2 <= items <= 0x0fff_fff0
    && n.fat_cnt >= 1 && FatStart(n) + FatLen(n) <= |vol.blocks|
    && 2 * FatStart(n) + FatLen(n) <= |vol.blocks|
  }

  /** A volume with at least one table has its data behind it, so that the first
      write of `fresh_fat` meets no cluster. */
  lemma TablesBeforeData(n: Info)
    requires n.root_cid >= 2 && n.fat_cnt >= 1
    ensures FatStart(n) + FatLen(n) <= DataStart(n)
  {
    Scale(1, n.fat_cnt, n.sectors_per_fat);
    Distribute(n.fat_offset, n.sectors_per_fat, n.blocks_per_sector);
    Scale(n.fat_offset + n.sectors_per_fat, RootOffset(n), n.blocks_per_sector);
  }

  /** No second write of `fresh_fat` meets a cluster. */
  predicate SecondClear(n: Info, limit: nat)
    requires n.root_cid >= 2 && limit >= 2
  {
    2 * FatStart(n) + FatLen(n) <= DataStart(n) || DataEnd(n, limit) <= 2 * FatStart(n)
  }

  /** Where the last cluster ends. */
  function DataEnd(n: Info, limit: nat): nat
    requires n.root_cid >= 2 && limit >= 2
  {
    ClusterBlock(n, limit)
  }

  /** Block b is no part of a cluster. */
  predicate OffData(n: Info, limit: nat, b: nat)
    requires n.root_cid >= 2 && limit >= 2
  {
    b < DataStart(n) || DataEnd(n, limit) <= b
  }

  lemma SomeBlocks(n: Info)
    requires Sane(n)
    ensures BlocksPerCluster(n) > 0
  {
    Positive(n.sectors_per_cluster, n.blocks_per_sector);
  }

  /** Clear means clear for every block of the table. */
  lemma SecondClearIff(n: Info, limit: nat)
    requires Sane(n) && limit > 2 && FatLen(n) > 0
    ensures SecondClear(n, limit) <==> forall b: nat | 2 * FatStart(n) <= b < 2 * FatStart(n) + FatLen(n) ::
            OffData(n, limit, b)
  {
    hide FatStart, FatLen, ClusterBlock, BlocksPerCluster;
    InData(n, limit, 2);
    SomeBlocks(n);
    if !SecondClear(n, limit) {
      assert !OffData(n, limit, if 2 * FatStart(n) < DataStart(n) then DataStart(n) else 2 * FatStart(n));
    }
  }

  lemma InData(n: Info, limit: nat, c: nat)
    requires Sane(n) && 2 <= c < limit
    ensures DataStart(n) <= ClusterBlock(n, c) && ClusterBlock(n, c) + BlocksPerCluster(n) <= DataEnd(n, limit)
  {
    TwoClusters(n, c, limit);
    if c > 2 { TwoClusters(n, 2, c); }
  }

  lemma TwoClusters(n: Info, c: nat, d: nat)
    requires n.root_cid >= 2 && 2 <= c < d
    ensures ClusterBlock(n, c) + BlocksPerCluster(n) <= ClusterBlock(n, d)
  {
    ClusterAt(n, c);
    ClusterAt(n, d);
    Steps(c - 2, d - 2, BlocksPerCluster(n));
  }

  lemma ClusterAt(n: Info, c: nat)
    requires n.root_cid >= 2 && c >= 2
    ensures ClusterBlock(n, c) == RootOffset(n) * n.blocks_per_sector + (c - 2) * BlocksPerCluster(n)
  {
    Distribute(RootOffset(n), (c - 2) * n.sectors_per_cluster, n.blocks_per_sector);
    Regroup(c - 2, n.sectors_per_cluster, n.blocks_per_sector);
  }

  /* ---- spare entries ---- */

  /** `get_free_cluster` looks at every entry of the table: what it finds is a
      cluster of the volume, or nothing, exactly when a zero entry lies below the
      limit, or there is none at all. */
  lemma FreeInsideIff(fat: seq<nat>, limit: nat)
    requires 2 <= limit <= |fat|
    ensures FreeFrom(fat, 2) == -1 || FreeFrom(fat, 2) < limit
            <==> (exists j :: 2 <= j < limit && fat[j] == 0) || (forall j | 2 <= j < |fat| :: fat[j] != 0)
  {
    var r := FreeFrom(fat, 2);
    if r != -1 { assert fat[r] == 0; }
  }

  lemma InsideOrNone(fat: seq<nat>, last: nat, limit: nat)
    requires 2 <= limit <= |fat| && (FreeIn(fat, 2, limit) > 0 || FreeIn(fat, limit, |fat|) == 0)
    requires last < |fat|
    ensures var n := AddCluster(fat, last).1; n < limit && (n == -1 <==> FreeIn(fat, 2, limit) == 0)
  {
    CountZero(fat, 2, limit);
    CountZero(fat, limit, |fat|);
  }

  /** The last cluster of a chain carries an end mark, and is a cluster. */
  lemma LastMarked(fat: seq<nat>, ch: seq<nat>)
    requires IsChain(fat, ch)
    ensures ch != [] && ch[|ch| - 1] < |fat| && fat[ch[|ch| - 1]] != 0
  {
  }

  /** The k clusters taken one after the other, as far as any are left, are all
      inside the volume. */
  ghost predicate AllInside(fat: seq<nat>, last: nat, limit: nat, k: nat)
    requires |fat| >= 2 && last < |fat|
    decreases k
  {
    k == 0
    || (var (fat', n) := AddCluster(fat, last); n == -1 || (n < limit && AllInside(fat', n, limit, k - 1)))
  }

  /** Growing a chain by k clusters stays inside the volume exactly when so many
      are free below the limit, or no spare entry is zero. */
  lemma {:induction false} AllInsideIff(fat: seq<nat>, last: nat, limit: nat, k: nat)
    requires 2 <= limit <= |fat| && last < |fat| && fat[last] != 0
    ensures AllInside(fat, last, limit, k) <==> k <= FreeIn(fat, 2, limit) || FreeIn(fat, limit, |fat|) == 0
    decreases k
  {
    var (fat', n) := AddCluster(fat, last);
    CountZero(fat, 2, limit);
    CountZero(fat, limit, |fat|);
    if n != -1 {
      TakenCounts(fat, last, 2, limit);
      TakenCounts(fat, last, limit, |fat|);
      if k > 0 && n < limit { AllInsideIff(fat', n, limit, k - 1); }
    }
  }

  /** A 64 MiB volume of one-block clusters with two tables of 1009 blocks has 128
      spare entries; with its clusters used up it hands out one behind its end. */
  lemma SpareEntryTaken(fat: seq<nat>, vol: Volume)
    requires |vol.blocks| == 131072 && |fat| == 129152
    requires forall j | 0 <= j < |fat| :: fat[j] == if j < 129024 then END_CID else 0
    ensures var n := Info(32, 2, 1009, 0, 2, 1, 1);
            && |fat| == FatLen(n) * 128 && ClusterLimit(n, |vol.blocks|, |fat|) == 129024
            && FreeFrom(fat, 2) == 129024 && !OnVolume(vol, n, 129024)
  {
    var n := Info(32, 2, 1009, 0, 2, 1, 1);
    assert ClusterBlock(n, 2) == 2050;
    LimitIsExact(n, vol, |fat|, 129024);
    FreeInsideIff(fat, 129024);
    var r := FreeFrom(fat, 2);
    assert fat[129024] == 0;
  }

  /* ---- files ---- */

  /** A chain all of whose clusters are inside the volume. */
  ghost predicate IsFile(fat: seq<nat>, ch: seq<nat>, limit: nat) {
    IsChain(fat, ch) && forall i | 0 <= i < |ch| :: ch[i] < limit
  }

  /** The bytes of one cluster. */
  ghost function ClusterBytes(view: Disk, vol: Volume, n: Info, c: nat): (s: seq<Byte>)
    requires OnDisk(vol, view) && OnVolume(vol, n, c)
    ensures |s| == ClusterSize(n)
  {
    Slice(view, vol, ClusterBlock(n, c) * BSIZE, ClusterSize(n))
  }

  ghost predicate Readable(view: Disk, vol: Volume, n: Info, ch: seq<nat>) {
    OnDisk(vol, view) && forall i | 0 <= i < |ch| :: OnVolume(vol, n, ch[i])
  }

  /** The bytes of a chain, end to end. */
  ghost function Content(view: Disk, vol: Volume, n: Info, ch: seq<nat>): (s: seq<Byte>)
    requires Readable(view, vol, n, ch)
    decreases |ch|
  {
    if ch == [] then [] else ClusterBytes(view, vol, n, ch[0]) + Content(view, vol, n, ch[1..])
  }

  lemma {:induction false} ContentLength(view: Disk, vol: Volume, n: Info, ch: seq<nat>)
    requires Readable(view, vol, n, ch)
    ensures |Content(view, vol, n, ch)| == |ch| * ClusterSize(n)
    decreases |ch|
  {
    if ch != [] {
      ContentLength(view, vol, n, ch[1..]);
      Steps(|ch| - 1, |ch|, ClusterSize(n));
      assert |ch| * ClusterSize(n) == (|ch| - 1) * ClusterSize(n) + ClusterSize(n);
    }
  }

  lemma {:induction false} ContentSplit(view: Disk, vol: Volume, n: Info, a: seq<nat>, b: seq<nat>)
    requires Readable(view, vol, n, a + b)
    ensures Readable(view, vol, n, a) && Readable(view, vol, n, b)
    ensures Content(view, vol, n, a + b) == Content(view, vol, n, a) + Content(view, vol, n, b)
    decreases |a|
  {
    ReadableParts(view, vol, n, a, b);
    if a == [] {
      assert a + b == b;
    } else {
      ContentFirst(view, vol, n, a[0], a[1..] + b);
      assert a + b == [a[0]] + (a[1..] + b);
      ContentSplit(view, vol, n, a[1..], b);
    }
  }

  lemma ContentFirst(view: Disk, vol: Volume, n: Info, c: nat, b: seq<nat>)
    requires Readable(view, vol, n, [c] + b)
    ensures OnVolume(vol, n, c) && Readable(view, vol, n, b)
    ensures Content(view, vol, n, [c] + b) == ClusterBytes(view, vol, n, c) + Content(view, vol, n, b)
  {
    ReadableParts(view, vol, n, [c], b);
    assert ([c] + b)[0] == c && ([c] + b)[1..] == b;
  }

  lemma ReadableParts(view: Disk, vol: Volume, n: Info, a: seq<nat>, b: seq<nat>)
    requires Readable(view, vol, n, a + b)
    ensures Readable(view, vol, n, a) && Readable(view, vol, n, b)
  {
    assert forall i | 0 <= i < |a| :: a[i] == (a + b)[i];
    assert forall i | 0 <= i < |b| :: b[i] == (a + b)[|a| + i];
  }

  /** A change that misses a chain's clusters leaves its bytes alone. */
  lemma {:induction false} ContentKept(v0: Disk, v1: Disk, vol: Volume, n: Info, ch: seq<nat>)
    requires Readable(v0, vol, n, ch) && Readable(v1, vol, n, ch)
    requires forall i | 0 <= i < |ch| :: ClusterBytes(v1, vol, n, ch[i]) == ClusterBytes(v0, vol, n, ch[i])
    ensures Content(v1, vol, n, ch) == Content(v0, vol, n, ch)
    decreases |ch|
  {
    if ch != [] {
      assert forall i | 0 <= i < |ch| - 1 :: ch[1..][i] == ch[i + 1];
      ContentKept(v0, v1, vol, n, ch[1..]);
    }
  }

  /** Bytes stored inside cluster c show up there and in no other cluster. */
  lemma StoreInCluster(v0: Disk, v1: Disk, vol: Volume, n: Info, limit: nat, c: nat, off: nat, bytes: seq<Byte>, d: nat)
    requires Geometry(n, vol, limit) && 2 <= c < limit && 2 <= d < limit && off + |bytes| <= ClusterSize(n)
    requires Overwrites(v0, v1, vol, ClusterBlock(n, c) * BSIZE + off, bytes)
    ensures d != c ==> ClusterBytes(v1, vol, n, d) == ClusterBytes(v0, vol, n, d)
    ensures var old_bytes := ClusterBytes(v0, vol, n, c);
            ClusterBytes(v1, vol, n, c) == old_bytes[..off] + bytes + old_bytes[off + |bytes|..]
  {
    var a := ClusterBlock(n, d) * BSIZE;
    var s0, s1 := ClusterBytes(v0, vol, n, d), ClusterBytes(v1, vol, n, d);
    if d != c {
      forall i | 0 <= i < ClusterSize(n)
        ensures s1[i] == s0[i]
      {
        assert s1[i] == ByteAt(v1, vol, a + i) && s0[i] == ByteAt(v0, vol, a + i);
      }
    }
    var t0, t1 := ClusterBytes(v0, vol, n, c), ClusterBytes(v1, vol, n, c);
    forall i | 0 <= i < ClusterSize(n)
      ensures t1[i] == (t0[..off] + bytes + t0[off + |bytes|..])[i]
    {
      var x := ClusterBlock(n, c) * BSIZE + i;
      assert t1[i] == ByteAt(v1, vol, x) && t0[i] == ByteAt(v0, vol, x);
    }
  }

  /** Bytes stored beside a cluster leave it alone. */
  lemma StoreOutside(v0: Disk, v1: Disk, vol: Volume, n: Info, limit: nat, a: nat, bytes: seq<Byte>, d: nat)
    requires Geometry(n, vol, limit) && 2 <= d < limit
    requires a + |bytes| <= ClusterBlock(n, d) * BSIZE || (ClusterBlock(n, d) + BlocksPerCluster(n)) * BSIZE <= a
    requires Overwrites(v0, v1, vol, a, bytes)
    ensures ClusterBytes(v1, vol, n, d) == ClusterBytes(v0, vol, n, d)
  {
    var s0, s1 := ClusterBytes(v0, vol, n, d), ClusterBytes(v1, vol, n, d);
    forall i | 0 <= i < ClusterSize(n)
      ensures s1[i] == s0[i]
    {
      var x := ClusterBlock(n, d) * BSIZE + i;
      assert s1[i] == ByteAt(v1, vol, x) && s0[i] == ByteAt(v0, vol, x);
    }
  }
}
