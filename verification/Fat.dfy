/** `kernel/fat32.c`: the cluster table in memory with its copies on disk, and
    files as byte ranges over clusters over blocks. */
module Fat {
  import opened Arith
  import opened Pages
  import opened CacheSpec
  import opened BlockCache
  import opened FatSpec
  import opened FatMirror
  import opened FatFile

  const SIZE_FIELD: nat := 28

  /** inode_t as far as files use it: first cluster, size, and the place of the
      directory entry. */
  class Inode {
    const id: nat
    const dir: nat       // first cluster of the directory holding the entry
    const index: nat     // index_in_parent
    var size: nat

    constructor (id: nat, dir: nat, index: nat, size: nat)
      ensures this.id == id && this.dir == dir && this.index == index && this.size == size
    {
      this.id, this.dir, this.index, this.size := id, dir, index, size;
    }
  }

  /** The count a read is cut to: the sum is compared as an unsigned word. */
  function ReadLength(fsize: nat, offset: int, size: int): int {
    if (offset + size) % WORD32 > fsize then fsize - offset else size
  }

  /** A read from offset of n bytes of a chain of len bytes fails; without any
      cluster (len 0) only when there is something to read. */
  predicate ReadFails(fsize: nat, len: nat, offset: int, n: int) {
    offset < 0 || offset > fsize || (if len == 0 then n > 0 else offset >= len || offset + n > len)
  }

  /** A directory's bytes after an entry's size field was stored; nothing when
      the index lies beyond its end. */
  function SizeStored(data: seq<Byte>, index: nat, size: nat): (s: seq<Byte>)
    ensures |s| == |data|
  {
    var a := index * SLOT + SIZE_FIELD;
    if a + 4 > |data| then data else data[..a] + WordBytes(size) + data[a + 4..]
  }

  /** The size that `sfn_entry2inode` reads from entry index of a directory: the word
      at byte 28 of its 32. */
  function EntrySize(data: seq<Byte>, index: nat): nat
    requires 32 * index + 32 <= |data|
  {
    WordAt(data, 32 * index + 28)
  }

  /** A size stored is the size read from that entry; every other byte stays. */
  lemma SizeReadBack(data: seq<Byte>, index: nat, size: nat)
    requires 32 * index + 32 <= |data| && size < WORD32
    ensures EntrySize(SizeStored(data, index, size), index) == size
    ensures forall x | 0 <= x < |data| && !(32 * index + 28 <= x < 32 * index + 32) ::
              SizeStored(data, index, size)[x] == data[x]
  {
    var s, a := SizeStored(data, index, size), 32 * index + 28;
    assert s[a..a + 4] == WordBytes(size);
    assert [s[a], s[a + 1], s[a + 2], s[a + 3]] == WordBytes(size);
    WordIff(s[a], s[a + 1], s[a + 2], s[a + 3], size);
  }

  lemma Next(fat: seq<nat>, ch: seq<nat>, j: nat)
    requires IsChain(fat, ch) && j < |ch|
    ensures ch[j] < |fat|
    ensures if j + 1 < |ch| then fat[ch[j]] == ch[j + 1] && IsValidCid(ch[j + 1]) else !IsValidCid(fat[ch[j]])
    ensures IsValidCid(ch[j])
  {
  }

  lemma TableRow(cid: nat, rows: nat)
    requires cid < rows * 128
    ensures (cid / 128 + 1) * 128 <= rows * 128
  {
  }

  lemma JoinPieces(s: seq<Byte>, a: nat, m: nat, n: nat)
    requires a + m + n <= |s|
    ensures s[a..a + m] + s[a + m..a + m + n] == s[a..a + (m + n)]
  {
  }

  /** A cluster is a whole number of blocks and of directory entries. */
  lemma WholeBlocks(n: Info)
    ensures ClusterSize(n) % SLOT == 0 && ClusterSize(n) % BSIZE == 0
    ensures ClusterSize(n) > 0 ==> ClusterSize(n) / SLOT > 0
  {
  }

  /** Entry index is entry rest of cluster j. */
  lemma EntryPlace(len: nat, cs: nat, index: nat, j: nat, rest: nat)
    requires cs > 0 && cs % SLOT == 0
    ensures index < len * (cs / SLOT) <==> index * SLOT + SIZE_FIELD + 4 <= len * cs
    ensures j * (cs / SLOT) + rest == index && rest < cs / SLOT ==>
              j * cs + (rest * SLOT + SIZE_FIELD) == index * SLOT + SIZE_FIELD && rest * SLOT + SIZE_FIELD + 4 <= cs
  {
    var k := cs / SLOT;
    Regroup(len, k, SLOT);
    Regroup(j, k, SLOT);
  }

  lemma NoEntry(c: seq<Byte>, index: nat, size: nat)
    requires index * SLOT + SIZE_FIELD + 4 > |c|
    ensures SizeStored(c, index, size) == c
  {
  }

  lemma EntryStored(c: seq<Byte>, p: nat, cs: nat, a: nat, index: nat, size: nat)
    requires p + cs <= |c| && a + 4 <= cs && p + a == index * SLOT + SIZE_FIELD
    ensures var b := c[p..p + cs];
            c[..p] + (b[..a] + WordBytes(size) + b[a + 4..]) + c[p + cs..] == SizeStored(c, index, size)
  {
  }

  /** Cluster j of a directory was written back with a size stored at offset a. */
  lemma SizeInPlace(v0: Disk, v1: Disk, vol: Volume, n: Info, limit: nat, dch: seq<nat>, j: nat, a: nat, index: nat,
                    size: nat, buffer: seq<Byte>)
    requires Geometry(n, vol, limit) && Clusters(dch, limit) && j < |dch| && a + 4 <= ClusterSize(n) == |buffer|
    requires j * ClusterSize(n) + a == index * SLOT + SIZE_FIELD
    requires Overwrites(v0, v1, vol, ClusterBlock(n, dch[j]) * BSIZE, buffer)
    requires Readable(v0, vol, n, dch) && (j + 1) * ClusterSize(n) <= |Content(v0, vol, n, dch)|
    requires var p := j * ClusterSize(n); var b := Content(v0, vol, n, dch)[p..p + ClusterSize(n)];
             buffer == b[..a] + WordBytes(size) + b[a + 4..]
    ensures Readable(v1, vol, n, dch)
    ensures Content(v1, vol, n, dch) == SizeStored(Content(v0, vol, n, dch), index, size)
  {
    hide Geometry, ClusterBlock, Content, Readable, SizeStored, ClusterSize, Overwrites;
    var c, cs := Content(v0, vol, n, dch), ClusterSize(n);
    var p := j * cs;
    assert p + cs <= |c| by { NextMultiple(j, cs); }
    EntryStored(c, p, cs, a, index, size);
    assert c[..p] + buffer + c[p + cs..] == SizeStored(c, index, size);
    StoreInChain(v0, v1, vol, n, limit, dch, j, 0, buffer);
  }

  lemma StoreKeepsRest(v0: Disk, v1: Disk, vol: Volume, n: Info, limit: nat, f: seq<nat>, dch: seq<nat>, j: nat,
                       buffer: seq<Byte>)
    requires Geometry(n, vol, limit) && IsFile(f, dch, limit) && j < |dch| && |buffer| == ClusterSize(n)
    requires Overwrites(v0, v1, vol, ClusterBlock(n, dch[j]) * BSIZE, buffer)
    ensures OthersKept(v0, f, dch, v1, f, dch, vol, n, limit)
  {
    hide Geometry, ClusterBlock, ClusterSize, OthersKept, IsFile;
    NothingTouched(v0, f, dch, vol, n, limit);
    StoreKeepsOthers(v0, f, dch, v0, v1, f, dch, vol, n, limit, j, 0, buffer);
  }

  /** Both tables lie outside the data area. */
  predicate TablesClear(n: Info, limit: nat)
    requires n.root_cid >= 2 && limit >= 2
  {
    FatStart(n) + FatLen(n) <= DataStart(n) && SecondClear(n, limit)
  }

  /** A store in the data area leaves both tables alone. */
  lemma DataKeepsTables(v0: Disk, v1: Disk, vol: Volume, n: Info, limit: nat, fat: seq<nat>, c: nat, off: nat,
                        part: seq<Byte>)
    requires Geometry(n, vol, limit) && 2 <= c < limit && FatStart(n) == FatLen(n) && TablesClear(n, limit)
    requires |fat| == FatLen(n) * 128 && off + |part| <= ClusterSize(n)
    requires Overwrites(v0, v1, vol, ClusterBlock(n, c) * BSIZE + off, part)
    requires Mirrored(v0, vol, FatStart(n), fat) && Mirrored(v0, vol, FatStart(n) + FatLen(n), fat)
    ensures Mirrored(v1, vol, FatStart(n), fat) && Mirrored(v1, vol, FatStart(n) + FatLen(n), fat)
  {
    InData(n, limit, c);
    hide Geometry, Mirrored, ClusterBlock, FatStart, FatLen, Overwrites, BlocksPerCluster;
    CopyKept(v0, v1, vol, FatStart(n), fat, ClusterBlock(n, c) * BSIZE + off, part);
    CopyKept(v0, v1, vol, FatStart(n) + FatLen(n), fat, ClusterBlock(n, c) * BSIZE + off, part);
  }

  lemma Taken(s: seq<Byte>, i: nat, n: nat)
    requires i + n <= |s|
    ensures s[i..][..n] == s[i..i + n] && s[..i] + s[i..][..n] == s[..i + n] && s[i..][n..] == s[i + n..]
  {
  }

  /** A write at offset into a file of size fsize and a chain of len bytes is
      rejected. */
  predicate OutOfRange(fsize: nat, len: nat, offset: int) {
    offset < 0 || offset > fsize || offset > len
  }

  /** How many bytes a write stores: what fits into the chain and the free
      clusters, or -1 when it is rejected. */
  function Accepted(fsize: nat, len: nat, free: nat, offset: int, size: nat): int {
    if OutOfRange(fsize, len, offset) then -1
    else if offset + size <= len + free then size else len + free - offset
  }

  predicate HasPlace(room: nat, offset: int, k: nat) { offset + k < room }

  /** Byte k of a write finds a place exactly when it lies inside the chain or the
      clusters that are free; nothing is stored, and -1 says so, exactly for an offset
      that is negative, behind the size, or behind the chain. */
  lemma AcceptedIs(fsize: nat, len: nat, free: nat, offset: int, size: nat)
    ensures Accepted(fsize, len, free, offset, size) == -1 <==> offset < 0 || offset > fsize || offset > len
    ensures 0 <= offset <= fsize && offset <= len ==>
              var c, room := Accepted(fsize, len, free, offset, size), len + free;
              0 <= c <= size && forall k: nat | k < size :: HasPlace(room, offset, k) <==> k < c
  {
  }

  /** A write that ends at byte end stays inside a chain of len clusters, or the
      clusters it takes are inside the volume and the tables clear of them. */
  predicate CanGrow(n: Info, vol: Volume, f: seq<nat>, limit: nat, len: nat, end: int) {
    end <= len * ClusterSize(n)
    || (Tables(n, vol, |f|) && 2 <= limit <= |f| && SecondClear(n, limit)
        && (FreeIn(f, limit, |f|) == 0 || end <= (len + FreeIn(f, 2, limit)) * ClusterSize(n)))
  }

  /** In the middle of such a write a cluster is left, or none at all. */
  lemma RoomLeft(n: Info, vol: Volume, f0: seq<nat>, f: seq<nat>, limit: nat, len: nat, cur: nat, end: int)
    requires n.root_cid >= 2 && 2 <= limit <= |f0| && |f| == |f0| && CanGrow(n, vol, f0, limit, len, end)
    requires FreeIn(f, 2, limit) + cur == FreeIn(f0, 2, limit) + len
    requires FreeIn(f, limit, |f|) == FreeIn(f0, limit, |f|)
    requires len <= cur && cur * ClusterSize(n) < end
    ensures Tables(n, vol, |f|) && SecondClear(n, limit)
    ensures FreeIn(f, 2, limit) > 0 || FreeIn(f, limit, |f|) == 0
  {
    hide FreeIn, ClusterSize, Tables, SecondClear;
    Scale(len, cur, ClusterSize(n));
  }

  datatype Option<T> = None | Some(value: T)

  /** What a write of count bytes did to the file: nothing when it was rejected or
      there is no cluster; otherwise the chain ch became cur, by as many free clusters as the last
      byte needs, with the bytes in place. */
  ghost predicate FileWritten(v0: Disk, f0: seq<nat>, ch: seq<nat>, v: Disk, f: seq<nat>, cur: seq<nat>, vol: Volume,
                              n: Info,
                              limit: nat, offset: int, buffer: seq<Byte>, count: int) {
    if count < 0 || ch == [] then f == f0 && cur == ch && (count < 0 ==> v == v0)
    else && 0 <= offset && count <= |buffer| && Written(v0, ch, v, cur, vol, n, offset, buffer[..count])
         && |f| == |f0| >= limit >= 2 && FreeIn(f, 2, limit) + |cur| == FreeIn(f0, 2, limit) + |ch|
         && (|cur| == |ch| || (|cur| - 1) * ClusterSize(n) < offset + count)
  }

  /** The directory with this chain has the new size in one entry, if any, and
      is otherwise the same. */
  ghost predicate EntryWritten(v0: Disk, v: Disk, vol: Volume, n: Info, dch: seq<nat>, index: nat, size: Option<nat>) {
    && Readable(v0, vol, n, dch) && Readable(v, vol, n, dch)
    && Content(v, vol, n, dch)
    == match size
       case None => Content(v0, vol, n, dch)
       case Some(w) => SizeStored(Content(v0, vol, n, dch), index, w)
  }

  function NewSize(fsize: nat, offset: nat, n: nat, cover: bool): nat {
    if cover || offset + n > fsize then offset + n else fsize
  }

  /** On a file whose chain holds its size, a read is cut to the end of the file
      and fails exactly at the end of a chain that the offset fills. */
  lemma ReadFailsIff(fsize: nat, len: nat, offset: nat, size: nat)
    requires offset <= fsize <= len && fsize <= MAX_INT && offset + size <= MAX_INT
    ensures var n := ReadLength(fsize, offset, size);
            && n == (if offset + size <= fsize then size else fsize - offset)
            && (ReadFails(fsize, len, offset, n) <==> offset == len > 0)
  {
  }

  /* ---- files without a cluster ---- */

  /** ori_cid when the write has passed no cluster: -1 as an unsigned word. */
  const NO_CID: nat := 0xffff_ffff

  /** The table entry that `add_cluster` links a new cluster to, at the end of the
      chain of a file, or of none. */
  function LinkedEntry(ch: seq<nat>): nat { if ch == [] then NO_CID else ch[|ch| - 1] }

  lemma ChainHasNone(f: seq<nat>, ch: seq<nat>)
    ensures IsChain(f, ch) ==> forall k | 0 <= k < |ch| :: ch[k] != NO_CID
  {
    if IsChain(f, ch) {
      forall k | 0 <= k < |ch|
        ensures ch[k] != NO_CID
      {
        Next(f, ch, k);
      }
    }
  }

  /** A write of count bytes, started in the first cluster id, stores to the table
      outside of it. */
  predicate StoresOutside(fat: seq<nat>, id: nat, count: nat)
    requires |fat| >= 2
  {
    count > 0 && !IsValidCid(id) && FreeFrom(fat, 2) != -1
  }

  /** The entry linked is one of the table exactly when the id is a valid cluster: a
      write stays inside the table exactly then, or when it stores no byte or finds
      no cluster to take. */
  lemma EntryInsideIff(fat: seq<nat>, id: nat, ch: seq<nat>, count: nat)
    requires 2 <= |fat| <= 0x0fff_fff0
    requires if ch == [] then !IsValidCid(id) else IsChain(fat, ch) && ch[0] == id
    ensures LinkedEntry(ch) < |fat| <==> IsValidCid(id)
    ensures StoresOutside(fat, id, count) <==> count > 0 && FreeFrom(fat, 2) != -1 && LinkedEntry(ch) >= |fat|
  {
    if ch != [] { LastMarked(fat, ch); Next(fat, ch, 0); }
  }

  /** An empty file as the format has it, first cluster 0: writing one byte stores
      outside of any table with a free cluster; the file, then of size 1, cannot
      be read; at size 0 every read of it is empty. */
  lemma EmptyFileStoresOutside(fat: seq<nat>, size: nat)
    requires 3 <= |fat| <= 0x0fff_fff0 && fat[2] == 0 && size <= MAX_INT
    ensures StoresOutside(fat, 0, 1) && LinkedEntry([]) >= |fat|
    ensures ReadFails(1, 0, 0, ReadLength(1, 0, 1))
    ensures ReadLength(0, 0, size) == 0 && !ReadFails(0, 0, 0, ReadLength(0, 0, size))
  {
    assert fat[2] == 0;
  }

  /** A file of one full cluster, read at its end: -1 and not 0. */
  lemma ReadAtEndFails()
    ensures ReadLength(4096, 4096, 100) == 0 && ReadFails(4096, 4096, 4096, 0)
  {
  }

  /** Reading the chain after a write reads the plain file after that write. */
  lemma ReadOfWrite(v0: Disk, ch: seq<nat>, v: Disk, cur: seq<nat>, vol: Volume, n: Info, o: nat, bytes: seq<Byte>,
                    fsize: nat, cover: bool, p: nat, k: nat)
    requires Written(v0, ch, v, cur, vol, n, o, bytes) && o <= fsize <= |Content(v0, vol, n, ch)|
    requires p <= NewSize(fsize, o, |bytes|, cover) <= MAX_INT && p + k <= MAX_INT
    ensures var m, c := ReadLength(NewSize(fsize, o, |bytes|, cover), p, k), Content(v, vol, n, cur);
            0 <= m && p + m <= |c|
            && c[p..p + m] == ReadFile(WriteFile(Content(v0, vol, n, ch)[..fsize], o, bytes, cover), p, k)
  {
    hide Content, Readable;
    WrittenIsWrite(v0, ch, v, cur, vol, n, o, bytes, fsize, cover);
    var size', c := NewSize(fsize, o, |bytes|, cover), Content(v, vol, n, cur);
    var m := ReadLength(size', p, k);
    ReadFailsIff(size', size', p, k);
    assert 0 <= m && p + m <= size';
    InPrefix(c, size', p, m);
  }

  lemma InPrefix(s: seq<Byte>, len: nat, p: nat, m: nat)
    requires p + m <= len <= |s|
    ensures s[..len][p..p + m] == s[p..p + m]
  {
  }

  class FatFs {
    const cache: BlockCache
    const vol: Volume
    const info: Info
    const fat: array<nat>

    constructor (cache: BlockCache, vol: Volume, info: Info, fat: array<nat>)
      requires cache.Valid() && cache.Room() && OnDisk(vol, cache.disk) && OneToOne(vol)
      requires fat != cache.next && fat != cache.prev && Sane(info) && fat.Length >= 2
      ensures Valid() && this.cache == cache && this.vol == vol && this.info == info && this.fat == fat
    {
      this.cache, this.vol, this.info, this.fat := cache, vol, info, fat;
    }

    ghost predicate Valid()
      reads this, cache, cache.bufs, cache.next, cache.prev, fat
    {
      && cache.Valid() && cache.Room() && OnDisk(vol, cache.disk) && OneToOne(vol)
      && fat != cache.next && fat != cache.prev && Sane(info) && fat.Length >= 2
    }

    /** Two more than the number of clusters. */
    function Limit(): (limit: nat)
      requires Sane(info) && fat.Length >= 2
      ensures 2 <= limit <= fat.Length
    {
      ClusterLimit(info, |vol.blocks|, fat.Length)
    }

    lemma InView()
      requires Valid()
      ensures OnDisk(vol, cache.view) && ClusterSize(info) > 0 && Geometry(info, vol, Limit())
    {
      Positive(info.sectors_per_cluster, info.blocks_per_sector);
      LimitIsGeometry(info, vol, fat.Length);
    }

    lemma OfChain(ch: seq<nat>)
      requires Valid() && IsFile(fat[..], ch, Limit())
      ensures ch != [] && IsChain(fat[..], ch) && Clusters(ch, Limit()) && Readable(cache.view, vol, info, ch)
      ensures |Content(cache.view, vol, info, ch)| == |ch| * ClusterSize(info)
    {
      InView();
      ClustersReadable(cache.view, vol, info, Limit(), ch);
      ContentLength(cache.view, vol, info, ch);
    }

    /** `get_free_cluster`. */
    method GetFreeCluster() returns (r: int)
      requires fat.Length >= 2
      ensures r == FreeFrom(fat[..], 2)
    {
      var i := 2;
      while i < fat.Length
        invariant 2 <= i <= fat.Length
        invariant FreeFrom(fat[..], 2) == FreeFrom(fat[..], i)
      {
        if fat[i] == 0 {
          return i;
        }
        i := i + 1;
      }
      return -1;
    }

    /** `fresh_fat`: the block of the table holding entry cid, written twice. */
    method FreshFat(cid: nat) returns (ghost mid: Disk)
      requires Valid() && Tables(info, vol, fat.Length) && cid < fat.Length
      modifies cache`disk, cache`view, cache`order, cache`releases, cache.bufs, cache.next, cache.prev
      ensures Valid() && cache.Counts() == old(cache.Counts()) && cache.disk.Keys == old(cache.disk.Keys)
      ensures TwoWrites(old(cache.view), mid, cache.view, vol, FatStart(info), 2 * FatStart(info), fat[..], cid)
      ensures SecondClear(info, Limit()) ==> ClustersKept(old(cache.view), cache.view, vol, info, Limit())
    {
      hide BlockCache.Valid, Geometry, FatStart, FatLen, TableBlock, ClustersKept, Overwrites, ClusterLimit, DataStart,
           DataEnd;
      InTable(cid);
      InView();
      var bid := FatStart(info) + cid / 128;
      var data := TableBlock(fat[..], cid / 128);
      ghost var v0, t := cache.view, fat[..];
      cache.WriteBlocks(vol, bid, 1, data);
      mid := cache.view;
      cache.WriteBlocks(vol, FatStart(info) + bid, 1, data);
      if SecondClear(info, Limit()) {
        BlockOffData(v0, mid, vol, info, Limit(), bid, data);
        BlockOffData(mid, cache.view, vol, info, Limit(), FatStart(info) + bid, data);
        KeptTwice(v0, mid, cache.view, vol, info, Limit());
      }
      assert fat[..] == t;
    }

    lemma InTable(cid: nat)
      requires Tables(info, vol, fat.Length) && cid < fat.Length
      ensures fat.Length == FatLen(info) * 128 && (cid / 128 + 1) * 128 <= fat.Length && cid / 128 < FatLen(info)
      ensures FatStart(info) + FatLen(info) <= DataStart(info) && 2 <= fat.Length <= 0x0fff_fff0
      ensures FatStart(info) + FatLen(info) <= |vol.blocks| && 2 * FatStart(info) + FatLen(info) <= |vol.blocks|
    {
      hide FatStart, FatLen, DataStart;
      TablesBeforeData(info);
      TableRow(cid, FatLen(info));
    }

    /** Both tables on disk equal the one in memory. */
    ghost predicate BothMirrored()
      reads cache, fat
    {
      && Mirrored(cache.view, vol, FatStart(info), fat[..])
      && Mirrored(cache.view, vol, FatStart(info) + FatLen(info), fat[..])
    }

    /** The volumes on which the second write is where it belongs, and both tables
        outside the data area. */
    ghost predicate Mirrors()
      requires Sane(info) && fat.Length >= 2
    {
      FatStart(info) == FatLen(info) && fat.Length == FatLen(info) * 128 && TablesClear(info, Limit())
    }

    /** `set_fat`. */
    method SetFat(cid: nat, value: nat) returns (ghost mid: Disk)
      requires Valid() && Tables(info, vol, fat.Length) && cid < fat.Length
      modifies cache`disk, cache`view, cache`order, cache`releases, cache.bufs, cache.next, cache.prev, fat
      ensures Valid() && cache.Counts() == old(cache.Counts()) && cache.disk.Keys == old(cache.disk.Keys)
      ensures fat[..] == old(fat[..])[cid := value]
      ensures TwoWrites(old(cache.view), mid, cache.view, vol, FatStart(info), 2 * FatStart(info), fat[..], cid)
      ensures OnDisk(vol, cache.view) && FatStart(info) * BSIZE + 4 * cid + 4 <= |vol.blocks| * BSIZE
      ensures value < WORD32 ==> WordOn(cache.view, vol, FatStart(info) * BSIZE + 4 * cid) == value
      ensures SecondClear(info, Limit()) ==> ClustersKept(old(cache.view), cache.view, vol, info, Limit())
      ensures old(BothMirrored()) && FatStart(info) == FatLen(info) ==> BothMirrored()
    {
      hide BlockCache.Valid, Geometry, FatStart, FatLen, TableBlock, ClustersKept, Overwrites, Mirrored, ClusterLimit,
           DataStart, DataEnd, WordOn;
      InTable(cid);
      InView();
      ghost var v0, f0 := cache.view, fat[..];
      fat[cid] := value;
      assert fat[..] == f0[cid := value];
      mid := FreshFat(cid);
      InView();
      assert FatStart(info) * BSIZE + 4 * cid + 4 <= |vol.blocks| * BSIZE;
      if value < WORD32 { EntryOnDisk(v0, mid, cache.view, vol, FatStart(info), fat[..], cid); }
      if old(BothMirrored()) && FatStart(info) == FatLen(info) {
        BothFollow(v0, mid, cache.view, vol, FatStart(info), FatLen(info), f0, cid, value);
      }
    }

    /** `fat32_superblock_init` reading the first table into memory. */
    method LoadTable() returns (words: seq<nat>)
      requires Valid() && FatStart(info) + FatLen(info) <= |vol.blocks|
      modifies cache`disk, cache`order, cache`releases, cache.bufs, cache.next, cache.prev
      ensures Valid() && cache.Counts() == old(cache.Counts()) && OnDisk(vol, cache.view)
      ensures FatStart(info) * BSIZE + 4 * (FatLen(info) * 128) <= |vol.blocks| * BSIZE
      ensures words == TableOn(cache.view, vol, FatStart(info), FatLen(info) * 128)
      ensures AllWords(fat[..]) && fat.Length == FatLen(info) * 128 ==>
                (words == fat[..] <==> Mirrored(cache.view, vol, FatStart(info), fat[..]))
    {
      hide BlockCache.Valid, FatStart, FatLen, Mirrored, TableOn, Words, Geometry;
      InView();
      ghost var t := fat[..];
      var bytes := cache.ReadBlocks(vol, FatStart(info), FatLen(info));
      words := Words(bytes);
      assert fat[..] == t && FatLen(info) * BSIZE == 4 * (FatLen(info) * 128);
      SliceWords(cache.view, vol, FatStart(info), FatLen(info) * 128);
      if AllWords(t) && |t| == FatLen(info) * 128 { LoadedIff(cache.view, vol, FatStart(info), t); }
    }

    /** `add_cluster`. */
    method AddCluster(cid: nat) returns (n: int)
      requires Valid() && Tables(info, vol, fat.Length) && cid < fat.Length
      modifies cache`disk, cache`view, cache`order, cache`releases, cache.bufs, cache.next, cache.prev, fat
      ensures Valid() && cache.Counts() == old(cache.Counts()) && cache.disk.Keys == old(cache.disk.Keys)
      ensures (fat[..], n) == FatSpec.AddCluster(old(fat[..]), cid)
      ensures SecondClear(info, Limit()) ==> ClustersKept(old(cache.view), cache.view, vol, info, Limit())
      ensures n == -1 ==> cache.view == old(cache.view)
      ensures old(BothMirrored()) && FatStart(info) == FatLen(info) ==> BothMirrored()
    {
      hide BlockCache.Valid, Geometry, FatStart, FatLen, ClustersKept, Mirrored, ClusterLimit, SecondClear, TwoWrites,
           Tables;
      ghost var v0 := cache.view;
      n := GetFreeCluster();
      if n != -1 {
        ghost var m1 := SetFat(cid, n);
        ghost var v1 := cache.view;
        ghost var m2 := SetFat(n, END_CID);
        if SecondClear(info, Limit()) { KeptTwice(v0, v1, cache.view, vol, info, Limit()); }
      } else {
        InView();
        UnchangedKept(v0, vol, info, Limit());
      }
    }

    /** The first cluster id of a file with chain ch; with none, no cluster, and the
        position is not behind a first one. */
    ghost predicate Starts(id: nat, ch: seq<nat>, fsize: nat, offset: int)
      requires Sane(info) && fat.Length >= 2
      reads fat
    {
      if ch == [] then !IsValidCid(id) && (offset <= fsize ==> offset < ClusterSize(info))
      else IsFile(fat[..], ch, Limit()) && ch[0] == id
    }

    /** The loop by which `fat32_read_inode`, `fat32_update_inode` and
        `get_bid_from_son` walk to a position, counting step per cluster. */
    method Seek(id: nat, ghost ch: seq<nat>, position: nat, step: nat)
      returns (ok: bool, cid: nat, rest: nat, ghost j: nat)
      requires step > 0 && if ch == [] then position < step else IsChain(fat[..], ch) && ch[0] == id
      ensures ch == [] ==> ok && cid == id && rest == position && j == 0
      ensures ch != [] ==> (ok <==> position < |ch| * step)
      ensures ch != [] && ok ==> j < |ch| && cid == ch[j] && rest < step && j * step + rest == position
    {
      cid, rest, j := id, position, 0;
      while rest >= step
        invariant j * step + rest == position
        invariant if ch == [] then j == 0 && cid == id else j < |ch| && cid == ch[j]
        decreases rest
      {
        Next(fat[..], ch, j);
        NextMultiple(j, step);
        cid := fat[cid];
        if !IsValidCid(cid) {
          return false, cid, rest, j;
        }
        rest := rest - step;
        j := j + 1;
      }
      if ch != [] { BeyondEnd(j, |ch|, step, rest); }
      ok := true;
    }

    /** `fat32_read_inode` on a file whose chain is ch, possibly none: without a
        cluster a file of size 0 reads as empty, and a longer one not at all. */
    method ReadInode(node: Inode, ghost ch: seq<nat>, offset: int, size: int) returns (r: int, buffer: seq<Byte>)
      requires Valid() && Starts(node.id, ch, node.size, offset)
      requires node.size <= MAX_INT && -MAX_INT <= size && offset + size <= MAX_INT
      modifies cache`disk, cache`order, cache`releases, cache.bufs, cache.next, cache.prev
      ensures Valid() && cache.Counts() == old(cache.Counts()) && Readable(cache.view, vol, info, ch)
      ensures var n := ReadLength(node.size, offset, size);
              && r == (if ReadFails(node.size, |ch| * ClusterSize(info), offset, n) then -1 else n)
              && (!ReadFails(node.size, |ch| * ClusterSize(info), offset, n) ==>
                    if n <= 0 then buffer == []
                    else offset + n <= |Content(cache.view, vol, info, ch)|
                         && buffer == Content(cache.view, vol, info, ch)[offset..offset + n])
    {
      hide BlockCache.Valid, Geometry, ClusterSize, ClusterBlock, Readable, Slice, Content, IsValidCid, IsChain,
           OneToOne;
      InView();
      var cs := ClusterSize(info);
      var count := size;
      buffer := [];
      Starting(node.id, ch, node.size, offset);
      if offset < 0 || offset > node.size {
        return -1, [];
      }
      if (offset + size) % WORD32 > node.size {
        count := node.size - offset;
      }
      var ok, cid, off, j := Seek(node.id, ch, offset, cs);
      if !ok {
        return -1, [];
      }
      r, buffer := ReadFrom(ch, cid, off, count, offset, j);
    }

    lemma Starting(id: nat, ch: seq<nat>, fsize: nat, offset: int)
      requires Valid() && Starts(id, ch, fsize, offset)
      ensures Readable(cache.view, vol, info, ch)
      ensures |Content(cache.view, vol, info, ch)| == |ch| * ClusterSize(info)
      ensures if ch == [] then !IsValidCid(id) && |ch| * ClusterSize(info) == 0
              else |ch| * ClusterSize(info) > 0 && IsChain(fat[..], ch) && IsValidCid(id)
    {
      hide BlockCache.Valid, Geometry, ClusterSize, IsValidCid, OneToOne;
      InView();
      if ch != [] {
        OfChain(ch);
        Next(fat[..], ch, 0);
        Positive(|ch|, ClusterSize(info));
      }
    }

    /** The second loop of `fat32_read_inode`: no round when nothing is left to
        read; the first round fails on an id that is no cluster. */
    method ReadFrom(ghost ch: seq<nat>, cid: nat, off: nat, count: int, ghost offset: nat, ghost j: nat)
      returns (r: int, buffer: seq<Byte>)
      requires Valid() && Readable(cache.view, vol, info, ch)
      requires if ch == [] then !IsValidCid(cid)
               else && IsFile(fat[..], ch, Limit()) && j < |ch| && cid == ch[j]
                    && off < ClusterSize(info) && j * ClusterSize(info) + off == offset
      modifies cache`disk, cache`order, cache`releases, cache.bufs, cache.next, cache.prev
      ensures Valid() && cache.Counts() == old(cache.Counts()) && Readable(cache.view, vol, info, ch)
      ensures count <= 0 ==> r == count && buffer == []
      ensures count > 0 && ch == [] ==> r == -1
      ensures count > 0 && ch != [] ==> r == if offset + count > |ch| * ClusterSize(info) then -1 else count
      ensures count > 0 && ch != [] && offset + count <= |ch| * ClusterSize(info) ==>
                offset + count <= |Content(cache.view, vol, info, ch)|
                && buffer == Content(cache.view, vol, info, ch)[offset..offset + count]
    {
      hide BlockCache.Valid, Geometry, ClusterSize, Readable, Content, IsValidCid, IsChain, IsFile, OneToOne;
      if count <= 0 {
        return count, [];
      }
      if ch != [] { OfChain(ch); Next(fat[..], ch, j); }
      if !IsValidCid(cid) {
        return -1, [];
      }
      r, buffer := ReadClusters(ch, cid, off, count, offset, j);
    }

    /** One round of the second loop: n bytes of cluster j from off on, then the
        next cluster. */
    method ReadCluster(ghost ch: seq<nat>, ghost j: nat, cid: nat, off: nat, n: nat)
      returns (chunk: seq<Byte>, next: nat)
      requires Valid() && IsFile(fat[..], ch, Limit()) && j < |ch| && cid == ch[j] && off + n <= ClusterSize(info)
      modifies cache`disk, cache`order, cache`releases, cache.bufs, cache.next, cache.prev
      ensures Valid() && cache.Counts() == old(cache.Counts())
      ensures Readable(cache.view, vol, info, ch)
      ensures var p := j * ClusterSize(info) + off;
              p + n <= |Content(cache.view, vol, info, ch)| && chunk == Content(cache.view, vol, info, ch)[p..p + n]
      ensures if j + 1 < |ch| then next == ch[j + 1] && IsValidCid(next) else !IsValidCid(next)
    {
      hide BlockCache.Valid, Geometry, Readable, Slice, Content, IsValidCid, IsChain, OneToOne;
      InView();
      OfChain(ch);
      Next(fat[..], ch, j);
      ReadInChain(cache.view, vol, info, ch, j, off, n);
      chunk := cache.ReadBytes(vol, ClusterBlock(info, cid), off, n);
      next := fat[cid];
    }

    /** The second loop of `fat32_read_inode`, from byte off of cluster j. */
    method ReadClusters(ghost ch: seq<nat>, cid0: nat, off0: nat, count: int, ghost offset: nat, ghost j0: nat)
      returns (r: int, buffer: seq<Byte>)
      requires Valid() && IsFile(fat[..], ch, Limit()) && j0 < |ch| && cid0 == ch[j0]
      requires off0 < ClusterSize(info) && j0 * ClusterSize(info) + off0 == offset
      modifies cache`disk, cache`order, cache`releases, cache.bufs, cache.next, cache.prev
      ensures Valid() && cache.Counts() == old(cache.Counts()) && Readable(cache.view, vol, info, ch)
      ensures r == if count > 0 && offset + count > |ch| * ClusterSize(info) then -1 else count
      ensures count <= 0 ==> buffer == []
      ensures count > 0 && offset + count <= |ch| * ClusterSize(info) ==>
                offset + count <= |Content(cache.view, vol, info, ch)|
                && buffer == Content(cache.view, vol, info, ch)[offset..offset + count]
    {
      hide BlockCache.Valid, Geometry, ClusterSize, ClusterBlock, Readable, Slice, Content, IsValidCid, IsChain,
           OneToOne;
      InView();
      var cs := ClusterSize(info);
      OfChain(ch);
      ghost var whole := Content(cache.view, vol, info, ch);
      BeyondEnd(j0, |ch|, cs, off0);
      buffer := [];
      var left, cid: nat, off: nat := count, cid0, off0;
      ghost var j: nat := j0;
      Next(fat[..], ch, j);
      while left > 0
        invariant Valid() && cache.Counts() == old(cache.Counts()) && cache.view == old(cache.view)
        invariant 0 <= j <= |ch| && (if j < |ch| then cid == ch[j] && IsValidCid(cid) else !IsValidCid(cid))
        invariant left > 0 ==> off < cs && j * cs + off == offset + |buffer|
        invariant j == |ch| ==> off == 0
        invariant (if count > 0 then left >= 0 && |buffer| + left == count else left == count && buffer == [])
        invariant offset + |buffer| <= |whole| && buffer == whole[offset..offset + |buffer|]
        decreases left
      {
        if !IsValidCid(cid) {
          Next(fat[..], ch, |ch| - 1);
          assert j == |ch| && offset + |buffer| == |whole|;
          return -1, buffer;
        }
        var n := if left >= cs - off then cs - off else left;
        var chunk;
        chunk, cid := ReadCluster(ch, j, cid, off, n);
        JoinPieces(whole, offset, |buffer|, n);
        NextMultiple(j, cs);
        buffer := buffer + chunk;
        left := left - n;
        off := 0;
        j := j + 1;
      }
      assert count > 0 ==> offset + count <= |whole|;
      return count, buffer;
    }

    /** `fat32_update_inode`: the size goes into the directory entry. */
    method UpdateInode(node: Inode, ghost dch: seq<nat>)
      requires Valid() && IsFile(fat[..], dch, Limit()) && dch[0] == node.dir
      requires ClusterSize(info) <= PG_SIZE
      modifies cache`disk, cache`view, cache`order, cache`releases, cache.bufs, cache.next, cache.prev
      ensures Valid() && cache.Counts() == old(cache.Counts())
      ensures old(Readable(cache.view, vol, info, dch)) && Readable(cache.view, vol, info, dch)
      ensures Content(cache.view, vol, info, dch)
           == SizeStored(old(Content(cache.view, vol, info, dch)), node.index, node.size)
      ensures var data := Content(cache.view, vol, info, dch);
              32 * node.index + 32 <= |data| && node.size < WORD32 ==> EntrySize(data, node.index) == node.size
      ensures OthersKept(old(cache.view), fat[..], dch, cache.view, fat[..], dch, vol, info, Limit())
      ensures old(BothMirrored()) && Mirrors() ==> BothMirrored()
    {
      hide BlockCache.Valid, Geometry, Readable, Content, IsValidCid, IsChain, OneToOne, OthersKept, Mirrored,
           FatStart, FatLen, SizeStored, ClusterSize, EntrySize;
      InView();
      OfChain(dch);
      WholeBlocks(info);
      ghost var c0 := Content(cache.view, vol, info, dch);
      if 32 * node.index + 32 <= |c0| && node.size < WORD32 { SizeReadBack(c0, node.index, node.size); }
      var ok, cid, rest, j := Seek(node.dir, dch, node.index, ClusterSize(info) / SLOT);
      EntryPlace(|dch|, ClusterSize(info), node.index, j, rest);
      if ok {
        StoreSize(cid, rest, node.size, dch, j, node.index);
      } else {
        NothingTouched(cache.view, fat[..], dch, vol, info, Limit());
        NoEntry(Content(cache.view, vol, info, dch), node.index, node.size);
      }
    }

    /** The cluster is read, changed at entry rest, and written back whole. */
    method StoreSize(cid: nat, rest: nat, size: nat, ghost dch: seq<nat>, ghost j: nat, ghost index: nat)
      requires Valid() && IsFile(fat[..], dch, Limit()) && j < |dch| && cid == dch[j]
      requires rest * SLOT + SIZE_FIELD + 4 <= ClusterSize(info)
      requires j * ClusterSize(info) + (rest * SLOT + SIZE_FIELD) == index * SLOT + SIZE_FIELD
      modifies cache`disk, cache`view, cache`order, cache`releases, cache.bufs, cache.next, cache.prev
      ensures Valid() && cache.Counts() == old(cache.Counts())
      ensures old(Readable(cache.view, vol, info, dch)) && Readable(cache.view, vol, info, dch)
      ensures Content(cache.view, vol, info, dch) == SizeStored(old(Content(cache.view, vol, info, dch)), index, size)
      ensures OthersKept(old(cache.view), fat[..], dch, cache.view, fat[..], dch, vol, info, Limit())
      ensures old(BothMirrored()) && Mirrors() ==> BothMirrored()
    {
      hide BlockCache.Valid, Geometry, ClusterBlock, Readable, Slice, Content, IsValidCid, IsChain, OneToOne,
           Overwrites, OthersKept, Mirrored, FatStart, FatLen, SizeStored, ClusterSize;
      InView();
      OfChain(dch);
      WholeBlocks(info);
      var cs, a := ClusterSize(info), rest * SLOT + SIZE_FIELD;
      ghost var v0, t := cache.view, fat[..];
      ghost var c, p := Content(v0, vol, info, dch), j * cs;
      ReadInChain(v0, vol, info, dch, j, 0, cs);
      var bid, blocks := ClusterBlock(info, cid), cs / BSIZE;
      assert blocks * BSIZE == cs && bid * BSIZE + 0 == bid * BSIZE;
      var buffer := cache.ReadBlocks(vol, bid, blocks);
      assert buffer == c[p..p + cs];
      buffer := buffer[..a] + WordBytes(size) + buffer[a + 4..];
      cache.WriteBlocks(vol, bid, blocks, buffer);
      assert fat[..] == t;
      SizeInPlace(v0, cache.view, vol, info, Limit(), dch, j, a, index, size, buffer);
      StoreKeepsRest(v0, cache.view, vol, info, Limit(), t, dch, j, buffer);
      if old(BothMirrored()) && Mirrors() {
        DataKeepsTables(v0, cache.view, vol, info, Limit(), t, cid, 0, buffer);
      }
    }

    /** A write that has turned the chain ch with contents v0 and table f0 into
        cur by storing done at o. */
    ghost predicate InProgress(v0: Disk, f0: seq<nat>, ch: seq<nat>, cur: seq<nat>, o: nat, done: seq<Byte>,
                               mirrored: bool)
      reads this, cache, cache.bufs, cache.next, cache.prev, fat
    {
      && Valid() && IsFile(fat[..], cur, Limit()) && |f0| == fat.Length && 2 <= |f0|
      && Written(v0, ch, cache.view, cur, vol, info, o, done)
      && OthersKept(v0, f0, ch, cache.view, fat[..], cur, vol, info, Limit())
      && FreeIn(fat[..], 2, Limit()) + |cur| == FreeIn(f0, 2, Limit()) + |ch|
      && FreeIn(fat[..], Limit(), |f0|) == FreeIn(f0, Limit(), |f0|)
      && (mirrored ==> Mirrors() && BothMirrored())
    }

    /** One round of the second loop of `fat32_write_inode`. */
    method StoreCluster(cid: nat, off: nat, part: seq<Byte>, ghost v0: Disk, ghost f0: seq<nat>, ghost ch: seq<nat>,
                        ghost cur: seq<nat>, ghost o: nat, ghost done: seq<Byte>, ghost mirrored: bool, ghost j: nat)
      returns (next: nat)
      requires InProgress(v0, f0, ch, cur, o, done, mirrored)
      requires j < |cur| && cid == cur[j] && off + |part| <= ClusterSize(info)
               && j * ClusterSize(info) + off == o + |done|
      modifies cache`disk, cache`view, cache`order, cache`releases, cache.bufs, cache.next, cache.prev
      ensures InProgress(v0, f0, ch, cur, o, done + part, mirrored) && cache.Counts() == old(cache.Counts())
      ensures if j + 1 < |cur| then next == cur[j + 1] && IsValidCid(next) else !IsValidCid(next)
    {
      hide BlockCache.Valid, Geometry, ClusterBlock, ClusterSize, Readable, Slice, Content, IsValidCid, IsChain,
           OneToOne,
           Overwrites, OthersKept, Mirrored, FatStart, FatLen, Written, FreeIn, IsFile, ClusterLimit;
      InView();
      OfChain(cur);
      Next(fat[..], cur, j);
      ghost var v, t := cache.view, fat[..];
      ReadInChain(v, vol, info, cur, j, off, |part|);
      cache.WriteBytes(vol, ClusterBlock(info, cid), off, part);
      assert fat[..] == t;
      WrittenMore(v0, ch, v, cache.view, cur, vol, info, Limit(), o, done, j, off, part);
      StoreKeepsOthers(v0, f0, ch, v, cache.view, t, cur, vol, info, Limit(), j, off, part);
      if mirrored {
        DataKeepsTables(v, cache.view, vol, info, Limit(), t, cid, off, part);
      }
      next := fat[cid];
    }

    /** The chain grows by a free cluster. */
    method Grow(last: nat, ghost v0: Disk, ghost f0: seq<nat>, ghost ch: seq<nat>,
                ghost cur: seq<nat>, ghost o: nat, ghost done: seq<Byte>, ghost mirrored: bool)
      returns (n: int)
      requires InProgress(v0, f0, ch, cur, o, done, mirrored) && last == cur[|cur| - 1]
      requires Tables(info, vol, fat.Length) && SecondClear(info, Limit())
      requires FreeIn(fat[..], 2, Limit()) > 0 || FreeIn(fat[..], Limit(), fat.Length) == 0
      modifies cache`disk, cache`view, cache`order, cache`releases, cache.bufs, cache.next, cache.prev, fat
      ensures cache.Counts() == old(cache.Counts())
      ensures n == -1 ==> InProgress(v0, f0, ch, cur, o, done, mirrored) && FreeIn(fat[..], 2, Limit()) == 0
      ensures n != -1 ==> n >= 2 && IsValidCid(n) && InProgress(v0, f0, ch, cur + [n], o, done, mirrored)
    {
      hide BlockCache.Valid, Geometry, ClusterBlock, ClusterSize, Readable, Content, IsValidCid, OneToOne,
           OthersKept, Mirrored, FatStart, FatLen, Written, FreeIn, FatSpec.AddCluster, ClustersKept,
           SecondClear, Tables, ClusterLimit, Mirrors;
      InView();
      OfChain(cur);
      InTable(last);
      ghost var v, t := cache.view, fat[..];
      InsideOrNone(t, last, Limit());
      LastMarked(t, cur);
      Unfold(v0, f0, ch, cur, o, done, mirrored);
      AddClusterAppends(t, cur);
      n := AddCluster(last);
      if n != -1 {
        SmallIsValid(n);
        TakenCounts(t, last, 2, Limit());
        TakenCounts(t, last, Limit(), |t|);
        WrittenLonger(v0, ch, v, cache.view, cur, vol, info, Limit(), o, done, n);
        GrowKeepsOthers(v0, f0, ch, v, cache.view, t, fat[..], cur, vol, info, Limit(), n);
      }
    }

    /** The first loop of `fat32_write_inode`: it may end one cluster past the
        chain, when the offset is exactly its length. */
    method SeekEnd(id: nat, ghost ch: seq<nat>, offset: nat, cs: nat)
      returns (ok: bool, cid: nat, last: nat, rest: nat, ghost j: nat)
      requires cs > 0
      requires if ch == [] then offset < cs && !IsValidCid(id) else IsChain(fat[..], ch) && ch[0] == id
      ensures ok <==> ch == [] || offset <= |ch| * cs
      ensures ok ==> && j <= |ch| && rest < cs && j * cs + rest == offset && last == LinkedEntry(ch[..j])
                     && (if j < |ch| then cid == ch[j] && IsValidCid(cid)
                         else !IsValidCid(cid) && (ch == [] || rest == 0))
    {
      hide IsValidCid;
      cid, last, rest, j := id, NO_CID, offset, 0;
      if ch != [] { Next(fat[..], ch, 0); }
      while rest >= cs
        invariant j <= |ch| && j * cs + rest == offset && last == LinkedEntry(ch[..j]) && (ch == [] ==> rest < cs)
        invariant if j < |ch| then cid == ch[j] && IsValidCid(cid) else !IsValidCid(cid) && (ch == [] || rest == 0)
        decreases rest
      {
        Next(fat[..], ch, j);
        NextMultiple(j, cs);
        last := cid;
        cid := fat[cid];
        if !IsValidCid(cid) && rest != cs {
          assert j + 1 == |ch| && offset > (j + 1) * cs;
          return false, cid, last, rest, j;
        }
        rest := rest - cs;
        j := j + 1;
        if j < |ch| { Next(fat[..], ch, j); }
      }
      if j < |ch| { Scale(j + 1, |ch|, cs); NextMultiple(j, cs); }
      ok := true;
    }

    /** One round of the second loop of `fat32_write_inode`: past the end of the
        chain it first takes a new cluster. */
    method WriteRound(cid: nat, last0: nat, off: nat, part: seq<Byte>, ghost v0: Disk, ghost f0: seq<nat>,
                      ghost ch: seq<nat>,
                      ghost cur: seq<nat>, ghost o: nat, ghost done: seq<Byte>, ghost mirrored: bool, ghost j: nat)
      returns (ok: bool, last: nat, next: nat, ghost cur': seq<nat>)
      requires InProgress(v0, f0, ch, cur, o, done, mirrored)
      requires off + |part| <= ClusterSize(info) && j * ClusterSize(info) + off == o + |done|
      requires if j < |cur| then cid == cur[j] && IsValidCid(cid)
               else j == |cur| > 0 && !IsValidCid(cid) && off == 0 && last0 == cur[j - 1]
      requires j == |cur| ==> && Tables(info, vol, fat.Length) && SecondClear(info, Limit())
                              && (FreeIn(fat[..], 2, Limit()) > 0 || FreeIn(fat[..], Limit(), fat.Length) == 0)
      modifies cache`disk, cache`view, cache`order, cache`releases, cache.bufs, cache.next, cache.prev, fat
      ensures cache.Counts() == old(cache.Counts())
      ensures cur' == cur || |cur'| == |cur| + 1 == j + 1
      ensures !ok ==> && cur' == cur && InProgress(v0, f0, ch, cur, o, done, mirrored)
                      && FreeIn(fat[..], 2, Limit()) == 0
                      && |f0| >= 2 && o + |done| == (|ch| + FreeIn(f0, 2, Limit())) * ClusterSize(info)
      ensures ok ==> && j < |cur'| && last == cur'[j] && InProgress(v0, f0, ch, cur', o, done + part, mirrored)
                     && (if j + 1 < |cur'| then next == cur'[j + 1] && IsValidCid(next) else !IsValidCid(next))
    {
      hide BlockCache.Valid, FatFs.Valid, Geometry, ClusterBlock, ClusterSize, Readable, Content, IsValidCid, IsChain,
           OneToOne, OthersKept, Mirrored, FatStart, FatLen, Written, FreeIn, InProgress, IsFile, ClusterLimit, Tables,
           SecondClear, CanGrow;
      last, next, cur' := cid, cid, cur;
      if !IsValidCid(cid) {
        var c := Grow(last0, v0, f0, ch, cur, o, done, mirrored);
        if c == -1 {
          Full(v0, f0, ch, cur, o, done, mirrored);
          return false, last, next, cur;
        }
        last := c;
        cur' := cur + [last];
      }
      next := StoreCluster(last, off, part, v0, f0, ch, cur', o, done, mirrored, j);
      ok := true;
    }

    /** The second loop of `fat32_write_inode`, from byte off0 of cluster j0. */
    method WriteClusters(cid0: nat, last0: nat, off0: nat, buffer: seq<Byte>, ghost v0: Disk, ghost f0: seq<nat>,
                         ghost ch: seq<nat>, ghost o: nat, ghost j0: nat, ghost mirrored: bool)
      returns (count: nat, ghost cur: seq<nat>)
      requires InProgress(v0, f0, ch, ch, o, [], mirrored)
      requires j0 <= |ch| && off0 < ClusterSize(info) && j0 * ClusterSize(info) + off0 == o
      requires if j0 < |ch| then cid0 == ch[j0] && IsValidCid(cid0) else !IsValidCid(cid0) && off0 == 0
      requires j0 == |ch| ==> last0 == ch[|ch| - 1]
      requires 2 <= Limit() <= |f0| && CanGrow(info, vol, f0, Limit(), |ch|, o + |buffer|)
      modifies cache`disk, cache`view, cache`order, cache`releases, cache.bufs, cache.next, cache.prev, fat
      ensures cache.Counts() == old(cache.Counts())
      ensures count <= |buffer| && InProgress(v0, f0, ch, cur, o, buffer[..count], mirrored)
      ensures count == |buffer| <==> buffer == [] || o + |buffer| <= (|ch| + FreeIn(f0, 2, Limit())) * ClusterSize(info)
      ensures count < |buffer| ==>
                && FreeIn(fat[..], 2, Limit()) == 0
                && o + count == (|ch| + FreeIn(f0, 2, Limit())) * ClusterSize(info)
      ensures |cur| == |ch| || (|cur| - 1) * ClusterSize(info) < o + count
    {
      hide BlockCache.Valid, FatFs.Valid, Geometry, ClusterBlock, ClusterSize, Readable, Content, IsValidCid, IsChain,
           OneToOne, OthersKept, Mirrored, FatStart, FatLen, Written, FreeIn, InProgress, IsFile, ClusterLimit, Tables,
           SecondClear, CanGrow;
      var cs := ClusterSize(info);
      var cid: nat, last: nat, off: nat, rest := cid0, last0, off0, buffer;
      count, cur := 0, ch;
      ghost var j: nat := j0;
      assert buffer[..0] == [];
      NotEmpty(v0, f0, ch, ch, o, [], mirrored);
      while |rest| > 0
        invariant count <= |buffer| && rest == buffer[count..] && cache.Counts() == old(cache.Counts())
        invariant InProgress(v0, f0, ch, cur, o, buffer[..count], mirrored)
        invariant 0 <= j <= |cur|
        invariant if j < |cur| then cid == cur[j] && IsValidCid(cid) else !IsValidCid(cid)
        invariant j == |cur| ==> off == 0 && j > 0 && last == cur[j - 1]
        invariant rest != [] ==> off < cs && j * cs + off == o + count
        invariant |cur| == |ch| || (|cur| - 1) * cs < o + count
        decreases |rest|
      {
        var n := if |rest| >= cs - off then cs - off else |rest|;
        Taken(buffer, count, n);
        if j == |cur| { RoomNow(v0, f0, ch, cur, o, buffer[..count], mirrored, o + |buffer|); }
        var ok, next;
        ok, last, next, cur := WriteRound(cid, last, off, rest[..n], v0, f0, ch, cur, o, buffer[..count], mirrored, j);
        if !ok {
          return;
        }
        cid := next;
        NextMultiple(j, cs);
        rest := rest[n..];
        count := count + n;
        off := 0;
        j := j + 1;
      }
      Fits(v0, f0, ch, cur, o, buffer[..count], mirrored);
    }

    lemma RoomNow(v0: Disk, f0: seq<nat>, ch: seq<nat>, cur: seq<nat>, o: nat, done: seq<Byte>, mirrored: bool,
                  end: int)
      requires InProgress(v0, f0, ch, cur, o, done, mirrored)
      requires 2 <= Limit() <= |f0| && CanGrow(info, vol, f0, Limit(), |ch|, end) && |cur| * ClusterSize(info) < end
      ensures Tables(info, vol, fat.Length) && SecondClear(info, Limit())
      ensures FreeIn(fat[..], 2, Limit()) > 0 || FreeIn(fat[..], Limit(), fat.Length) == 0
    {
      hide ClusterSize, BlockCache.Valid, IsFile, OthersKept, Content, Readable, Tables, SecondClear, FreeIn, CanGrow,
           ClusterLimit, Patchwork, OneToOne;
      RoomLeft(info, vol, f0, fat[..], Limit(), |ch|, |cur|, end);
    }

    lemma StartWrite(v0: Disk, ch: seq<nat>, o: nat)
      requires Valid() && IsFile(fat[..], ch, Limit()) && v0 == cache.view && o <= |ch| * ClusterSize(info)
      ensures InProgress(v0, fat[..], ch, ch, o, [], BothMirrored() && Mirrors())
    {
      hide BlockCache.Valid, Geometry, ClusterBlock, ClusterSize, Content, IsValidCid, IsChain,
           OneToOne, Mirrored, FatStart, FatLen, FreeIn;
      InView();
      OfChain(ch);
      NothingTouched(v0, fat[..], ch, vol, info, Limit());
      var c := Content(v0, vol, info, ch);
      forall x: nat | x < |c| || x < o
        ensures PatchAt(c, c, o, [], x)
      {
      }
    }

    lemma Unfold(v0: Disk, f0: seq<nat>, ch: seq<nat>, cur: seq<nat>, o: nat, done: seq<Byte>, mirrored: bool)
      requires InProgress(v0, f0, ch, cur, o, done, mirrored)
      ensures Valid() && IsFile(fat[..], cur, Limit()) && ch <= cur && |f0| == fat.Length && 2 <= |f0|
      ensures Written(v0, ch, cache.view, cur, vol, info, o, done)
      ensures OthersKept(v0, f0, ch, cache.view, fat[..], cur, vol, info, Limit())
      ensures FreeIn(fat[..], 2, Limit()) + |cur| == FreeIn(f0, 2, Limit()) + |ch|
      ensures FreeIn(fat[..], Limit(), |f0|) == FreeIn(f0, Limit(), |f0|)
      ensures mirrored ==> Mirrors() && FatStart(info) == FatLen(info) && BothMirrored()
      ensures OnDisk(vol, cache.view) && Geometry(info, vol, Limit())
    {
      hide BlockCache.Valid, Geometry, ClusterBlock, ClusterSize, IsFile, OneToOne, OthersKept, Mirrored, FreeIn,
           ClusterLimit, Patchwork, Readable;
      InView();
    }

    lemma NotEmpty(v0: Disk, f0: seq<nat>, ch: seq<nat>, cur: seq<nat>, o: nat, done: seq<Byte>, mirrored: bool)
      requires InProgress(v0, f0, ch, cur, o, done, mirrored)
      ensures cur != []
    {
    }

    lemma Full(v0: Disk, f0: seq<nat>, ch: seq<nat>, cur: seq<nat>, o: nat, done: seq<Byte>, mirrored: bool)
      requires InProgress(v0, f0, ch, cur, o, done, mirrored) && FreeIn(fat[..], 2, Limit()) == 0
      ensures |f0| >= 2 && |cur| == |ch| + FreeIn(f0, 2, Limit())
    {
    }

    lemma Fits(v0: Disk, f0: seq<nat>, ch: seq<nat>, cur: seq<nat>, o: nat, done: seq<Byte>, mirrored: bool)
      requires InProgress(v0, f0, ch, cur, o, done, mirrored)
      ensures |f0| >= 2 && |cur| <= |ch| + FreeIn(f0, 2, Limit())
      ensures o + |done| <= |cur| * ClusterSize(info) <= (|ch| + FreeIn(f0, 2, Limit())) * ClusterSize(info)
    {
      hide ClusterSize, BlockCache.Valid, Geometry, IsChain, OthersKept, Mirrored, Content, Readable;
      OfChain(cur);
      Scale(|cur|, |ch| + FreeIn(f0, 2, Limit()), ClusterSize(info));
    }

    /** `fat32_write_inode` on a file whose chain is ch, possibly none, in the
        directory whose chain is dch: count bytes are stored, and the chain becomes
        cur. When wild is set the code stores to the table outside of it, and
        nothing is said about what follows. */
    method WriteInode(node: Inode, ghost ch: seq<nat>, ghost dch: seq<nat>, offset: int, buffer: seq<Byte>, cover: bool)
      returns (r: int, wild: bool, ghost cur: seq<nat>, ghost count: int)
      requires Valid() && Starts(node.id, ch, node.size, offset)
      requires IsFile(fat[..], dch, Limit()) && dch[0] == node.dir && Apart(dch, ch)
      requires ClusterSize(info) <= PG_SIZE && node.size <= MAX_INT && offset + |buffer| <= MAX_INT
      requires ch == [] || OutOfRange(node.size, |ch| * ClusterSize(info), offset)
               || CanGrow(info, vol, fat[..], Limit(), |ch|, offset + |buffer|)
      modifies cache`disk, cache`view, cache`order, cache`releases, cache.bufs, cache.next, cache.prev, fat, node`size
      ensures wild <==> 0 <= offset <= old(node.size) && StoresOutside(old(fat[..]), node.id, |buffer|)
      ensures !wild ==> && Valid() && cache.Counts() == old(cache.Counts()) && ch <= cur
                        && (ch != [] ==> IsFile(fat[..], cur, Limit()))
      ensures !wild && ch != [] ==>
                count == Accepted(old(node.size), |ch| * ClusterSize(info),
                                  old(FreeIn(fat[..], 2, Limit())) * ClusterSize(info), offset, |buffer|)
      ensures !wild && ch == [] ==> count == if 0 <= offset <= old(node.size) then 0 else -1
      ensures !wild ==> r == if count == |buffer| then |buffer| else -1
      ensures !wild ==> FileWritten(old(cache.view), old(fat[..]), ch, cache.view, fat[..], cur, vol, info, Limit(),
                                    offset, buffer, count)
      ensures !wild ==> node.size == if r == -1 then old(node.size)
                                     else NewSize(old(node.size), offset, |buffer|, cover)
      ensures !wild ==> EntryWritten(old(cache.view), cache.view, vol, info, dch, node.index,
                                     if r == -1 then None else Some(node.size))
      ensures !wild ==> OthersKept(old(cache.view), old(fat[..]), ch + dch, cache.view, fat[..], cur + dch, vol, info,
                                   Limit())
      ensures !wild && old(BothMirrored()) && Mirrors() ==> BothMirrored()
    {
      hide BlockCache.Valid, Geometry, ClusterBlock, ClusterSize, Readable, Content, IsValidCid, IsChain, IsFile,
           OneToOne, OthersKept, Mirrored, FatStart, FatLen, Written, FreeIn, SizeStored, Apart,
           FileWritten, EntryWritten, InProgress, CanGrow, BothMirrored, ClusterLimit;
      InView();
      Starting(node.id, ch, node.size, offset);
      Unwritten(node.id, ch, dch, offset, buffer, node.index, node.size);
      r, wild, cur, count := -1, false, ch, -1;
      if offset < 0 || offset > node.size {
        return;
      }
      var ok, cid, last, rest, j := SeekEnd(node.id, ch, offset, ClusterSize(info));
      if !ok {
        return;
      }
      if !IsValidCid(cid) && last == NO_CID {
        LastIsNone(ch, j, cid, last);
        r, wild := WriteNowhere(node, dch, offset, buffer, cover);
        count := 0;
      } else {
        LastIsSome(ch, j, cid, last, node.id);
        r, cur, count := WriteChain(node, ch, dch, offset, buffer, cover, cid, last, rest, j);
      }
    }

    lemma LastIsNone(ch: seq<nat>, j: nat, cid: nat, last: nat)
      requires ch == [] || IsChain(fat[..], ch)
      requires j <= |ch| && last == LinkedEntry(ch[..j]) && (j < |ch| ==> cid == ch[j] && IsValidCid(cid))
      requires !IsValidCid(cid) && last == NO_CID
      ensures ch == []
    {
      ChainHasNone(fat[..], ch);
    }

    lemma LastIsSome(ch: seq<nat>, j: nat, cid: nat, last: nat, id: nat)
      requires if ch == [] then !IsValidCid(cid) else IsChain(fat[..], ch) && ch[0] == id
      requires j <= |ch| && last == LinkedEntry(ch[..j]) && (IsValidCid(cid) || last != NO_CID)
      ensures ch != [] && IsValidCid(id) && (j == |ch| ==> last == ch[|ch| - 1])
    {
      if ch != [] { Next(fat[..], ch, 0); }
    }

    /** The rest of `fat32_write_inode` without a cluster to begin with: the first
        round of the second loop links a free cluster to entry ori_cid, -1; with
        nothing to store only the size is written. */
    method WriteNowhere(node: Inode, ghost dch: seq<nat>, offset: nat, buffer: seq<Byte>, cover: bool)
      returns (r: int, wild: bool)
      requires Valid() && IsFile(fat[..], dch, Limit()) && dch[0] == node.dir && ClusterSize(info) <= PG_SIZE
      requires offset <= node.size
      modifies cache`disk, cache`view, cache`order, cache`releases, cache.bufs, cache.next, cache.prev, node`size
      ensures wild <==> buffer != [] && FreeFrom(fat[..], 2) != -1
      ensures Valid() && cache.Counts() == old(cache.Counts()) && r == if buffer == [] then 0 else -1
      ensures FileWritten(old(cache.view), old(fat[..]), [], cache.view, fat[..], [], vol, info, Limit(), offset,
                          buffer, 0)
      ensures node.size == if r == -1 then old(node.size) else NewSize(old(node.size), offset, 0, cover)
      ensures EntryWritten(old(cache.view), cache.view, vol, info, dch, node.index,
                           if r == -1 then None else Some(node.size))
      ensures OthersKept(old(cache.view), old(fat[..]), [] + dch, cache.view, fat[..], [] + dch, vol, info, Limit())
      ensures old(BothMirrored()) && Mirrors() ==> BothMirrored()
    {
      hide BlockCache.Valid, Geometry, ClusterBlock, ClusterSize, Readable, Content, IsValidCid, IsChain, IsFile,
           OneToOne, OthersKept, BothMirrored, SizeStored, ClusterLimit;
      OfChain(dch);
      InView();
      assert [] + dch == dch;
      if buffer != [] {
        NothingTouched(cache.view, fat[..], dch, vol, info, Limit());
        var c := GetFreeCluster();
        return -1, c != -1;
      }
      ghost var t := fat[..];
      node.size := if cover || offset > node.size then offset else node.size;
      UpdateInode(node, dch);
      assert fat[..] == t;
      return 0, false;
    }

    /** Byte offset of the chain is byte rest of its cluster j, or of the one to
        come. */
    ghost predicate Reached(ch: seq<nat>, offset: nat, cid: nat, last: nat, rest: nat, j: nat) {
      && j <= |ch| && rest < ClusterSize(info) && j * ClusterSize(info) + rest == offset && ch != []
      && (if j < |ch| then cid == ch[j] && IsValidCid(cid) else !IsValidCid(cid) && rest == 0)
      && (j == |ch| ==> last == ch[|ch| - 1])
    }

    /** What a write into a file with the chain ch did, from size fsize, disk v0 and
        table f0 on. */
    ghost predicate Outcome(node: Inode, fsize: nat, v0: Disk, f0: seq<nat>, ch: seq<nat>, dch: seq<nat>, offset: nat,
                            buffer: seq<Byte>, cover: bool, r: int, cur: seq<nat>, count: int)
      reads this, cache, cache.bufs, cache.next, cache.prev, fat, node
    {
      && Valid() && |f0| == fat.Length && IsFile(fat[..], cur, Limit()) && ch <= cur
      && count == Accepted(fsize, |ch| * ClusterSize(info), FreeIn(f0, 2, Limit()) * ClusterSize(info), offset,
                           |buffer|)
      && r == (if count == |buffer| then |buffer| else -1)
      && FileWritten(v0, f0, ch, cache.view, fat[..], cur, vol, info, Limit(), offset, buffer, count)
      && node.size == (if r == -1 then fsize else NewSize(fsize, offset, |buffer|, cover))
      && EntryWritten(v0, cache.view, vol, info, dch, node.index, if r == -1 then None else Some(node.size))
      && OthersKept(v0, f0, ch + dch, cache.view, fat[..], cur + dch, vol, info, Limit())
    }

    /** The rest of `fat32_write_inode` from cluster j of the chain on, or behind its
        end. */
    method WriteChain(node: Inode, ghost ch: seq<nat>, ghost dch: seq<nat>, offset: nat, buffer: seq<Byte>, cover: bool,
                      cid: nat, last: nat, rest: nat, ghost j: nat)
      returns (r: int, ghost cur: seq<nat>, ghost count: int)
      requires Valid() && IsFile(fat[..], ch, Limit()) && IsFile(fat[..], dch, Limit())
      requires dch[0] == node.dir && Apart(dch, ch) && ClusterSize(info) <= PG_SIZE
      requires offset <= node.size && offset <= |ch| * ClusterSize(info)
      requires CanGrow(info, vol, fat[..], Limit(), |ch|, offset + |buffer|)
      requires Reached(ch, offset, cid, last, rest, j)
      modifies cache`disk, cache`view, cache`order, cache`releases, cache.bufs, cache.next, cache.prev, fat, node`size
      ensures cache.Counts() == old(cache.Counts())
      ensures Outcome(node, old(node.size), old(cache.view), old(fat[..]), ch, dch, offset, buffer, cover, r, cur,
                      count)
      ensures old(BothMirrored()) && Mirrors() ==> BothMirrored()
    {
      hide BlockCache.Valid, Geometry, ClusterBlock, ClusterSize, Readable, Content, IsValidCid, IsChain,
           OneToOne, OthersKept, Mirrored, FatStart, FatLen, Written, FreeIn, SizeStored, Apart,
           FileWritten, EntryWritten, InProgress;
      InView();
      OfChain(ch);
      ghost var v0, f0 := cache.view, fat[..];
      StartWrite(v0, ch, offset);
      Distribute(|ch|, FreeIn(f0, 2, Limit()), ClusterSize(info));
      ghost var mirrored := BothMirrored() && Mirrors();
      var n;
      n, cur := WriteClusters(cid, last, rest, buffer, v0, f0, ch, offset, j, mirrored);
      count := n;
      r := FinishWrite(node, dch, offset, buffer, cover, n, v0, f0, ch, cur, mirrored);
    }

    lemma Unwritten(id: nat, ch: seq<nat>, dch: seq<nat>, offset: int, buffer: seq<Byte>, index: nat, fsize: nat)
      requires Valid() && Starts(id, ch, fsize, offset) && IsFile(fat[..], dch, Limit())
      ensures FileWritten(cache.view, fat[..], ch, cache.view, fat[..], ch, vol, info, Limit(), offset, buffer, -1)
      ensures EntryWritten(cache.view, cache.view, vol, info, dch, index, None)
      ensures OthersKept(cache.view, fat[..], ch + dch, cache.view, fat[..], ch + dch, vol, info, Limit())
    {
      hide BlockCache.Valid, Geometry, ClusterSize, Readable, Content, IsChain, OneToOne, OthersKept, Written;
      InView();
      OfChain(dch);
      NothingTouched(cache.view, fat[..], ch, vol, info, Limit());
      NothingTouched(cache.view, fat[..], dch, vol, info, Limit());
      ThenOthers(cache.view, fat[..], ch, cache.view, fat[..], ch, cache.view, dch, vol, info, Limit());
    }

    /** The end of `fat32_write_inode`: the new size, unless clusters ran out. */
    method FinishWrite(node: Inode, ghost dch: seq<nat>, offset: nat, buffer: seq<Byte>, cover: bool, n: nat,
                       ghost v0: Disk, ghost f0: seq<nat>, ghost ch: seq<nat>, ghost cur: seq<nat>,
                       ghost mirrored: bool)
      returns (r: int)
      requires n <= |buffer| && ch != [] && InProgress(v0, f0, ch, cur, offset, buffer[..n], mirrored)
      requires |cur| == |ch| || (|cur| - 1) * ClusterSize(info) < offset + n
      requires IsFile(f0, dch, Limit()) && dch[0] == node.dir && Apart(dch, ch) && ClusterSize(info) <= PG_SIZE
      modifies cache`disk, cache`view, cache`order, cache`releases, cache.bufs, cache.next, cache.prev, node`size
      ensures Valid() && cache.Counts() == old(cache.Counts()) && IsFile(fat[..], cur, Limit()) && ch <= cur
      ensures r == if n == |buffer| then |buffer| else -1
      ensures FileWritten(v0, f0, ch, cache.view, fat[..], cur, vol, info, Limit(), offset, buffer, n)
      ensures node.size == if r == -1 then old(node.size) else NewSize(old(node.size), offset, |buffer|, cover)
      ensures EntryWritten(v0, cache.view, vol, info, dch, node.index, if r == -1 then None else Some(node.size))
      ensures OthersKept(v0, f0, ch + dch, cache.view, fat[..], cur + dch, vol, info, Limit())
      ensures mirrored ==> Mirrors() && BothMirrored()
    {
      hide BlockCache.Valid, Geometry, ClusterBlock, ClusterSize, Readable, Content, IsValidCid, IsChain,
           OneToOne, OthersKept, Mirrored, FatStart, FatLen, Written, FreeIn, SizeStored, Apart, InProgress;
      Unfold(v0, f0, ch, cur, offset, buffer[..n], mirrored);
      ghost var v, f := cache.view, fat[..];
      OtherSurvives(v0, f0, ch, v, f, cur, dch, vol, info, Limit());
      if n < |buffer| {
        NothingTouched(v, f, dch, vol, info, Limit());
        ThenOthers(v0, f0, ch, v, f, cur, v, dch, vol, info, Limit());
        return -1;
      }
      node.size := if cover || offset + n > node.size then offset + n else node.size;
      UpdateInode(node, dch);
      assert fat[..] == f;
      WrittenStands(v0, ch, v, cache.view, f, cur, dch, vol, info, Limit(), offset, buffer[..n]);
      ThenOthers(v0, f0, ch, v, f, cur, cache.view, dch, vol, info, Limit());
      r := n;
    }
  }
}
