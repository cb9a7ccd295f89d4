/** A file as one byte string: what `fat32_read_inode` and `fat32_write_inode`
    mean, on values. */
module FatFile {
  import opened Arith
  import opened CacheSpec
  import opened FatSpec

  /* ---- the plain file ---- */

  /** The data after a write at o: cut behind the new bytes when cover is set,
      kept otherwise. */
  function WriteFile(data: seq<Byte>, o: nat, bytes: seq<Byte>, cover: bool): seq<Byte>
    requires o <= |data|
  {
    data[..o] + bytes + if cover || o + |bytes| >= |data| then [] else data[o + |bytes|..]
  }

  function ReadFile(data: seq<Byte>, o: nat, n: nat): seq<Byte>
    requires o <= |data|
  {
    data[o..if o + n <= |data| then o + n else |data|]
  }

  /** What is read after a write: the new bytes inside its range, the old ones
      outside. */
  lemma ReadAfterWrite(data: seq<Byte>, o: nat, bytes: seq<Byte>, cover: bool, p: nat, n: nat)
    requires o <= |data| && p <= |WriteFile(data, o, bytes, cover)|
    ensures var r := ReadFile(WriteFile(data, o, bytes, cover), p, n);
            && (p == o && n == |bytes| ==> r == bytes)
            && (p + n <= o || (!cover && p >= o + |bytes| && p <= |data|) ==> r == ReadFile(data, p, n))
            && (cover && p >= o + |bytes| ==> r == [])
  {
    var w := WriteFile(data, o, bytes, cover);
    if p + n <= o {
      assert w[p..p + n] == data[p..p + n];
    }
    if !cover && o + |bytes| <= p <= |data| {
      if o + |bytes| < |data| { assert |w| == |data|; } else { assert p == |data| == |w|; }
    }
  }

  /** Two writes that do not meet may be swapped. */
  lemma WritesCommute(data: seq<Byte>, o: nat, a: seq<Byte>, p: nat, b: seq<Byte>)
    requires o + |a| <= p && p + |b| <= |data|
    ensures WriteFile(WriteFile(data, o, a, false), p, b, false) == WriteFile(WriteFile(data, p, b, false), o, a, false)
  {
    var x, y := WriteFile(data, o, a, false), WriteFile(data, p, b, false);
    assert |x| == |data| && |y| == |data|;
  }

  /* ---- clusters of a chain ---- */

  /** Clusters of the volume, each once. */
  ghost predicate Clusters(ch: seq<nat>, limit: nat) {
    && (forall i | 0 <= i < |ch| :: 2 <= ch[i] < limit)
    && (forall i, j | 0 <= i < j < |ch| :: ch[i] != ch[j])
  }

  lemma ClustersReadable(v: Disk, vol: Volume, n: Info, limit: nat, ch: seq<nat>)
    requires Geometry(n, vol, limit) && OnDisk(vol, v) && Clusters(ch, limit)
    ensures Readable(v, vol, n, ch)
  {
  }

  lemma ContentOne(v: Disk, vol: Volume, n: Info, c: nat)
    requires Readable(v, vol, n, [c])
    ensures OnVolume(vol, n, c)
    ensures Content(v, vol, n, [c]) == ClusterBytes(v, vol, n, c)
  {
    assert [c][0] == c;
    assert Content(v, vol, n, [c][1..]) == [];
  }

  /** The bytes of a chain around its cluster j. */
  lemma ContentAround(v: Disk, vol: Volume, n: Info, ch: seq<nat>, j: nat)
    requires Readable(v, vol, n, ch) && j < |ch|
    ensures Readable(v, vol, n, ch[..j]) && Readable(v, vol, n, ch[j + 1..]) && OnDisk(vol, v)
            && OnVolume(vol, n, ch[j])
    ensures Content(v, vol, n, ch)
         == Content(v, vol, n, ch[..j]) + ClusterBytes(v, vol, n, ch[j]) + Content(v, vol, n, ch[j + 1..])
    ensures |Content(v, vol, n, ch[..j])| == j * ClusterSize(n)
    ensures |Content(v, vol, n, ch)| == |ch| * ClusterSize(n)
  {
    assert ch == (ch[..j] + [ch[j]]) + ch[j + 1..];
    ContentSplit(v, vol, n, ch[..j] + [ch[j]], ch[j + 1..]);
    ContentSplit(v, vol, n, ch[..j], [ch[j]]);
    ContentOne(v, vol, n, ch[j]);
    ContentLength(v, vol, n, ch[..j]);
    ContentLength(v, vol, n, ch);
  }

  /** The len bytes at address a of the volume are the bytes p.. of the chain. */
  ghost predicate ReadsAs(v: Disk, vol: Volume, n: Info, ch: seq<nat>, p: nat, len: nat, a: nat) {
    && Readable(v, vol, n, ch) && p + len <= |Content(v, vol, n, ch)|
    && a + len <= |vol.blocks| * BSIZE && Slice(v, vol, a, len) == Content(v, vol, n, ch)[p..p + len]
  }

  /** Reading inside cluster j reads the chain at j * ClusterSize. */
  lemma ReadInChain(v: Disk, vol: Volume, n: Info, ch: seq<nat>, j: nat, off: nat, len: nat)
    requires Readable(v, vol, n, ch) && j < |ch| && off + len <= ClusterSize(n)
    ensures ReadsAs(v, vol, n, ch, j * ClusterSize(n) + off, len, ClusterBlock(n, ch[j]) * BSIZE + off)
  {
    hide Content, ClusterBytes, Slice, ClusterBlock, ClusterSize;
    ContentAround(v, vol, n, ch, j);
    InCluster(v, vol, n, ch[j], off, len);
    Middle(Content(v, vol, n, ch), Content(v, vol, n, ch[..j]), ClusterBytes(v, vol, n, ch[j]),
           Content(v, vol, n, ch[j + 1..]), off, len, j * ClusterSize(n) + off);
  }

  lemma InCluster(v: Disk, vol: Volume, n: Info, c: nat, off: nat, len: nat)
    requires OnDisk(vol, v) && OnVolume(vol, n, c) && off + len <= ClusterSize(n)
    ensures ClusterBlock(n, c) * BSIZE + off + len <= |vol.blocks| * BSIZE
    ensures Slice(v, vol, ClusterBlock(n, c) * BSIZE + off, len) == ClusterBytes(v, vol, n, c)[off..off + len]
  {
    var s, t := Slice(v, vol, ClusterBlock(n, c) * BSIZE + off, len), ClusterBytes(v, vol, n, c);
    forall i | 0 <= i < len
      ensures s[i] == t[off + i]
    {
      var x := ClusterBlock(n, c) * BSIZE + off + i;
      assert s[i] == ByteAt(v, vol, x) && t[off + i] == ByteAt(v, vol, x);
    }
  }

  lemma Middle(s: seq<Byte>, a: seq<Byte>, b: seq<Byte>, c: seq<Byte>, off: nat, len: nat, p: nat)
    requires off + len <= |b| && s == a + b + c && p == |a| + off
    ensures p + len <= |s| && s[p..p + len] == b[off..off + len]
  {
  }

  lemma Replace(a: seq<Byte>, b: seq<Byte>, c: seq<Byte>, off: nat, part: seq<Byte>)
    requires off + |part| <= |b|
    ensures var s, p := a + b + c, |a| + off;
            a + (b[..off] + part + b[off + |part|..]) + c == s[..p] + part + s[p + |part|..]
  {
  }

  /** The chain's bytes from v0 to v1 have part stored at p and no other change. */
  ghost predicate StoredAt(v0: Disk, v1: Disk, vol: Volume, n: Info, ch: seq<nat>, p: nat, part: seq<Byte>) {
    && Readable(v0, vol, n, ch) && Readable(v1, vol, n, ch)
    && var c := Content(v0, vol, n, ch);
       p + |part| <= |c| && Content(v1, vol, n, ch) == c[..p] + part + c[p + |part|..]
  }

  /** Storing inside cluster j of a chain stores in its byte string. */
  lemma StoreInChain(v0: Disk, v1: Disk, vol: Volume, n: Info, limit: nat, ch: seq<nat>, j: nat, off: nat,
                     part: seq<Byte>)
    requires Geometry(n, vol, limit) && Clusters(ch, limit) && j < |ch| && off + |part| <= ClusterSize(n)
    requires Overwrites(v0, v1, vol, ClusterBlock(n, ch[j]) * BSIZE + off, part)
    ensures StoredAt(v0, v1, vol, n, ch, j * ClusterSize(n) + off, part)
  {
    hide Content, ClusterBytes, Geometry, ClusterSize, ClusterBlock, Readable, Overwrites, OnDisk;
    StoreOnDisk(v0, v1, vol, n, limit, ch[j], off, part);
    ClustersReadable(v0, vol, n, limit, ch);
    ClustersReadable(v1, vol, n, limit, ch);
    StoreBeside(v0, v1, vol, n, limit, ch, j, off, part, ch[..j]);
    StoreBeside(v0, v1, vol, n, limit, ch, j, off, part, ch[j + 1..]);
    StoreInCluster(v0, v1, vol, n, limit, ch[j], off, part, ch[j]);
    ContentReplaced(v0, v1, vol, n, ch, j, off, part);
  }

  lemma StoreOnDisk(v0: Disk, v1: Disk, vol: Volume, n: Info, limit: nat, c: nat, off: nat, part: seq<Byte>)
    requires Geometry(n, vol, limit) && 2 <= c < limit
    requires Overwrites(v0, v1, vol, ClusterBlock(n, c) * BSIZE + off, part)
    ensures OnDisk(vol, v0) && OnDisk(vol, v1)
  {
  }

  lemma ContentReplaced(v0: Disk, v1: Disk, vol: Volume, n: Info, ch: seq<nat>, j: nat, off: nat, part: seq<Byte>)
    requires Readable(v0, vol, n, ch) && Readable(v1, vol, n, ch) && j < |ch| && off + |part| <= ClusterSize(n)
    requires Readable(v0, vol, n, ch[..j]) && Readable(v0, vol, n, ch[j + 1..])
    requires Readable(v1, vol, n, ch[..j]) && Readable(v1, vol, n, ch[j + 1..])
    requires Content(v1, vol, n, ch[..j]) == Content(v0, vol, n, ch[..j])
    requires Content(v1, vol, n, ch[j + 1..]) == Content(v0, vol, n, ch[j + 1..])
    requires var b := ClusterBytes(v0, vol, n, ch[j]);
             ClusterBytes(v1, vol, n, ch[j]) == b[..off] + part + b[off + |part|..]
    ensures StoredAt(v0, v1, vol, n, ch, j * ClusterSize(n) + off, part)
  {
    hide Content, ClusterBytes, ClusterSize, Readable;
    ContentAround(v0, vol, n, ch, j);
    ContentAround(v1, vol, n, ch, j);
    Replace(Content(v0, vol, n, ch[..j]), ClusterBytes(v0, vol, n, ch[j]), Content(v0, vol, n, ch[j + 1..]), off, part);
  }

  lemma StoreBeside(v0: Disk, v1: Disk, vol: Volume, n: Info, limit: nat, ch: seq<nat>, j: nat, off: nat,
                    part: seq<Byte>, side: seq<nat>)
    requires Geometry(n, vol, limit) && Clusters(ch, limit) && j < |ch| && off + |part| <= ClusterSize(n)
    requires side == ch[..j] || side == ch[j + 1..]
    requires Overwrites(v0, v1, vol, ClusterBlock(n, ch[j]) * BSIZE + off, part)
    ensures Readable(v0, vol, n, side) && Readable(v1, vol, n, side)
    ensures Content(v1, vol, n, side) == Content(v0, vol, n, side)
  {
    forall i | 0 <= i < |side|
      ensures 2 <= side[i] < limit && side[i] != ch[j]
    {
      assert side[i] == ch[i] || side[i] == ch[j + 1 + i];
    }
    StoreMisses(v0, v1, vol, n, limit, ch[j], off, part, side);
  }

  /** Storing in a cluster outside a chain leaves the chain's bytes alone. */
  lemma StoreMisses(v0: Disk, v1: Disk, vol: Volume, n: Info, limit: nat, c: nat, off: nat, part: seq<Byte>,
                    d: seq<nat>)
    requires Geometry(n, vol, limit) && 2 <= c < limit && off + |part| <= ClusterSize(n)
    requires Overwrites(v0, v1, vol, ClusterBlock(n, c) * BSIZE + off, part)
    requires forall i | 0 <= i < |d| :: 2 <= d[i] < limit && d[i] != c
    ensures Readable(v0, vol, n, d) && Readable(v1, vol, n, d)
    ensures Content(v1, vol, n, d) == Content(v0, vol, n, d)
  {
    forall i | 0 <= i < |d|
      ensures OnVolume(vol, n, d[i])
      ensures ClusterBytes(v1, vol, n, d[i]) == ClusterBytes(v0, vol, n, d[i])
    {
      StoreInCluster(v0, v1, vol, n, limit, c, off, part, d[i]);
    }
    ContentKept(v0, v1, vol, n, d);
  }

  /** Every cluster holds the same bytes. */
  ghost predicate ClustersKept(v0: Disk, v1: Disk, vol: Volume, n: Info, limit: nat) {
    && Geometry(n, vol, limit) && OnDisk(vol, v0) && OnDisk(vol, v1)
    && forall c: nat {:trigger ClusterBytes(v1, vol, n, c)} | 2 <= c < limit ::
         ClusterBytes(v1, vol, n, c) == ClusterBytes(v0, vol, n, c)
  }

  lemma KeptContent(v0: Disk, v1: Disk, vol: Volume, n: Info, limit: nat, d: seq<nat>)
    requires ClustersKept(v0, v1, vol, n, limit) && forall i | 0 <= i < |d| :: 2 <= d[i] < limit
    ensures Readable(v0, vol, n, d) && Readable(v1, vol, n, d)
    ensures Content(v1, vol, n, d) == Content(v0, vol, n, d)
  {
    ContentKept(v0, v1, vol, n, d);
  }

  lemma BlockOffData(v0: Disk, v1: Disk, vol: Volume, n: Info, limit: nat, bid: nat, bytes: seq<Byte>)
    requires Geometry(n, vol, limit) && Overwrites(v0, v1, vol, bid * BSIZE, bytes) && |bytes| == BSIZE
    requires OffData(n, limit, bid)
    ensures ClustersKept(v0, v1, vol, n, limit)
  {
    forall c: nat | 2 <= c < limit
      ensures ClusterBytes(v1, vol, n, c) == ClusterBytes(v0, vol, n, c)
    {
      InData(n, limit, c);
      StoreOutside(v0, v1, vol, n, limit, bid * BSIZE, bytes, c);
    }
  }

  lemma UnchangedKept(v: Disk, vol: Volume, n: Info, limit: nat)
    requires Geometry(n, vol, limit) && OnDisk(vol, v)
    ensures ClustersKept(v, v, vol, n, limit)
  {
  }

  lemma KeptTwice(v0: Disk, v1: Disk, v2: Disk, vol: Volume, n: Info, limit: nat)
    requires ClustersKept(v0, v1, vol, n, limit) && ClustersKept(v1, v2, vol, n, limit)
    ensures ClustersKept(v0, v2, vol, n, limit)
  {
    forall c: nat | 2 <= c < limit
      ensures ClusterBytes(v2, vol, n, c) == ClusterBytes(v0, vol, n, c)
    {
      assert ClusterBytes(v1, vol, n, c) == ClusterBytes(v0, vol, n, c);
    }
  }

  /* ---- a write in progress ---- */

  predicate PatchAt(c0: seq<Byte>, c: seq<Byte>, o: nat, done: seq<Byte>, x: nat)
    requires o <= |c0| <= |c| && o + |done| <= |c| && (x < |c0| || x < o + |done|)
  {
    c[x] == if o <= x < o + |done| then done[x - o] else c0[x]
  }

  ghost predicate Patchwork(c0: seq<Byte>, c: seq<Byte>, o: nat, done: seq<Byte>) {
    && o <= |c0| <= |c| && o + |done| <= |c|
    && forall x: nat {:trigger PatchAt(c0, c, o, done, x)} | x < |c0| || x < o + |done| :: PatchAt(c0, c, o, done, x)
  }

  /** The chain ch with contents v0 has become cur with contents v by storing
      done at o. */
  ghost predicate Written(v0: Disk, ch: seq<nat>, v: Disk, cur: seq<nat>, vol: Volume, n: Info, o: nat,
                          done: seq<Byte>) {
    && Readable(v0, vol, n, ch) && Readable(v, vol, n, cur) && ch <= cur
    && Patchwork(Content(v0, vol, n, ch), Content(v, vol, n, cur), o, done)
  }

  lemma PatchMore(c0: seq<Byte>, c: seq<Byte>, o: nat, done: seq<Byte>, part: seq<Byte>)
    requires Patchwork(c0, c, o, done) && o + |done| + |part| <= |c|
    ensures var p := o + |done|; Patchwork(c0, c[..p] + part + c[p + |part|..], o, done + part)
  {
    var p := o + |done|;
    var c' := c[..p] + part + c[p + |part|..];
    forall x: nat | x < |c0| || x < o + |done + part|
      ensures PatchAt(c0, c', o, done + part, x)
    {
      if x < p || x >= p + |part| {
        assert PatchAt(c0, c, o, done, x);
      }
    }
  }

  lemma PatchLonger(c0: seq<Byte>, c: seq<Byte>, o: nat, done: seq<Byte>, more: seq<Byte>)
    requires Patchwork(c0, c, o, done)
    ensures Patchwork(c0, c + more, o, done)
  {
    forall x: nat | x < |c0| || x < o + |done|
      ensures PatchAt(c0, c + more, o, done, x)
    {
      assert PatchAt(c0, c, o, done, x);
    }
  }

  lemma WrittenMore(v0: Disk, ch: seq<nat>, v: Disk, v': Disk, cur: seq<nat>, vol: Volume, n: Info, limit: nat,
                    o: nat, done: seq<Byte>, j: nat, off: nat, part: seq<Byte>)
    requires Written(v0, ch, v, cur, vol, n, o, done) && Geometry(n, vol, limit) && Clusters(cur, limit)
    requires j < |cur| && off + |part| <= ClusterSize(n) && j * ClusterSize(n) + off == o + |done|
    requires Overwrites(v, v', vol, ClusterBlock(n, cur[j]) * BSIZE + off, part)
    ensures Written(v0, ch, v', cur, vol, n, o, done + part)
  {
    hide Content, Geometry, ClusterSize, ClusterBlock, Readable, Overwrites;
    StoreInChain(v, v', vol, n, limit, cur, j, off, part);
    PatchMore(Content(v0, vol, n, ch), Content(v, vol, n, cur), o, done, part);
  }

  lemma WrittenLonger(v0: Disk, ch: seq<nat>, v: Disk, v': Disk, cur: seq<nat>, vol: Volume, n: Info, limit: nat,
                      o: nat, done: seq<Byte>, c: nat)
    requires Written(v0, ch, v, cur, vol, n, o, done) && ClustersKept(v, v', vol, n, limit)
    requires Clusters(cur, limit) && 2 <= c < limit
    ensures Written(v0, ch, v', cur + [c], vol, n, o, done)
  {
    KeptContent(v, v', vol, n, limit, cur);
    assert forall i | 0 <= i < |cur| :: (cur + [c])[i] == cur[i];
    assert Readable(v', vol, n, cur + [c]);
    ContentSplit(v', vol, n, cur, [c]);
    PatchLonger(Content(v0, vol, n, ch), Content(v', vol, n, cur), o, done, Content(v', vol, n, [c]));
  }

  /** A finished write is a write of the plain file. */
  lemma WrittenIsWrite(v0: Disk, ch: seq<nat>, v: Disk, cur: seq<nat>, vol: Volume, n: Info, o: nat,
                       bytes: seq<Byte>, size: nat, cover: bool)
    requires Written(v0, ch, v, cur, vol, n, o, bytes)
    requires o <= size <= |Content(v0, vol, n, ch)|
    ensures var size' := if cover || o + |bytes| > size then o + |bytes| else size;
            && size' <= |Content(v, vol, n, cur)|
            && Content(v, vol, n, cur)[..size'] == WriteFile(Content(v0, vol, n, ch)[..size], o, bytes, cover)
  {
    hide Content, Readable;
    var c0, c := Content(v0, vol, n, ch), Content(v, vol, n, cur);
    var size' := if cover || o + |bytes| > size then o + |bytes| else size;
    var w := WriteFile(c0[..size], o, bytes, cover);
    assert |w| == size';
    forall x: nat | x < size'
      ensures c[..size'][x] == w[x]
    {
      assert PatchAt(c0, c, o, bytes, x);
    }
  }

  /* ---- the other files ---- */

  /** d is a file of its own before and after, with the same bytes. */
  ghost predicate Kept(v0: Disk, f0: seq<nat>, ch: seq<nat>, v: Disk, f: seq<nat>, cur: seq<nat>,
                       vol: Volume, n: Info, limit: nat, d: seq<nat>) {
    IsFile(f0, d, limit) && Apart(d, ch) ==>
      && IsFile(f, d, limit) && Apart(d, cur) && Readable(v0, vol, n, d) && Readable(v, vol, n, d)
      && Content(v, vol, n, d) == Content(v0, vol, n, d)
  }

  ghost predicate OthersKept(v0: Disk, f0: seq<nat>, ch: seq<nat>, v: Disk, f: seq<nat>, cur: seq<nat>,
                             vol: Volume, n: Info, limit: nat) {
    forall d: seq<nat> {:trigger Kept(v0, f0, ch, v, f, cur, vol, n, limit, d)} ::
      Kept(v0, f0, ch, v, f, cur, vol, n, limit, d)
  }

  lemma NothingTouched(v: Disk, f: seq<nat>, ch: seq<nat>, vol: Volume, n: Info, limit: nat)
    requires Geometry(n, vol, limit) && OnDisk(vol, v)
    ensures OthersKept(v, f, ch, v, f, ch, vol, n, limit)
  {
    forall d: seq<nat>
      ensures Kept(v, f, ch, v, f, ch, vol, n, limit, d)
    {
      if IsFile(f, d, limit) { ClustersReadable(v, vol, n, limit, d); }
    }
  }

  lemma StoreKeepsOthers(v0: Disk, f0: seq<nat>, ch: seq<nat>, v: Disk, v': Disk, f: seq<nat>, cur: seq<nat>,
                         vol: Volume, n: Info, limit: nat, j: nat, off: nat, part: seq<Byte>)
    requires OthersKept(v0, f0, ch, v, f, cur, vol, n, limit) && Geometry(n, vol, limit) && IsFile(f, cur, limit)
    requires j < |cur| && off + |part| <= ClusterSize(n)
    requires Overwrites(v, v', vol, ClusterBlock(n, cur[j]) * BSIZE + off, part)
    ensures OthersKept(v0, f0, ch, v', f, cur, vol, n, limit)
  {
    forall d: seq<nat>
      ensures Kept(v0, f0, ch, v', f, cur, vol, n, limit, d)
    {
      assert Kept(v0, f0, ch, v, f, cur, vol, n, limit, d);
      if IsFile(f0, d, limit) && Apart(d, ch) {
        assert cur[j] in cur;
        assert forall i | 0 <= i < |d| :: d[i] in d;
        StoreMisses(v, v', vol, n, limit, cur[j], off, part, d);
      }
    }
  }

  lemma GrowKeepsOthers(v0: Disk, f0: seq<nat>, ch: seq<nat>, v: Disk, v': Disk, f: seq<nat>, f': seq<nat>,
                        cur: seq<nat>, vol: Volume, n: Info, limit: nat, c: nat)
    requires OthersKept(v0, f0, ch, v, f, cur, vol, n, limit) && ClustersKept(v, v', vol, n, limit)
             && IsFile(f, cur, limit)
    requires 2 <= |f| <= 0x0fff_fff0 && AddCluster(f, cur[|cur| - 1]) == (f', c)
    ensures OthersKept(v0, f0, ch, v', f', cur + [c], vol, n, limit)
  {
    forall d: seq<nat>
      ensures Kept(v0, f0, ch, v', f', cur + [c], vol, n, limit, d)
    {
      assert Kept(v0, f0, ch, v, f, cur, vol, n, limit, d);
      if IsFile(f0, d, limit) && Apart(d, ch) {
        OtherChainsKept(f, cur, d);
        KeptContent(v, v', vol, n, limit, d);
      }
    }
  }

  /** One file more: a change of the chain ch followed by one of the chain dch. */
  lemma ThenOthers(v0: Disk, f0: seq<nat>, ch: seq<nat>, v: Disk, f: seq<nat>, cur: seq<nat>, v': Disk, dch: seq<nat>,
                   vol: Volume, n: Info, limit: nat)
    requires OthersKept(v0, f0, ch, v, f, cur, vol, n, limit) && OthersKept(v, f, dch, v', f, dch, vol, n, limit)
    ensures OthersKept(v0, f0, ch + dch, v', f, cur + dch, vol, n, limit)
  {
    hide IsFile, Content, Readable;
    forall d: seq<nat>
      ensures Kept(v0, f0, ch + dch, v', f, cur + dch, vol, n, limit, d)
    {
      assert Kept(v0, f0, ch, v, f, cur, vol, n, limit, d) && Kept(v, f, dch, v', f, dch, vol, n, limit, d);
    }
  }

  lemma OtherSurvives(v0: Disk, f0: seq<nat>, ch: seq<nat>, v: Disk, f: seq<nat>, cur: seq<nat>, d: seq<nat>,
                      vol: Volume, n: Info, limit: nat)
    requires OthersKept(v0, f0, ch, v, f, cur, vol, n, limit) && IsFile(f0, d, limit) && Apart(d, ch)
    ensures IsFile(f, d, limit) && Apart(d, cur) && Readable(v0, vol, n, d) && Readable(v, vol, n, d)
    ensures Content(v, vol, n, d) == Content(v0, vol, n, d)
  {
    assert Kept(v0, f0, ch, v, f, cur, vol, n, limit, d);
  }

  /** The write stands when another chain changes. */
  lemma WrittenStands(v0: Disk, ch: seq<nat>, v: Disk, v': Disk, f: seq<nat>, cur: seq<nat>, dch: seq<nat>,
                      vol: Volume, n: Info, limit: nat, o: nat, done: seq<Byte>)
    requires Written(v0, ch, v, cur, vol, n, o, done) && OthersKept(v, f, dch, v', f, dch, vol, n, limit)
    requires IsFile(f, cur, limit) && Apart(dch, cur)
    ensures Written(v0, ch, v', cur, vol, n, o, done)
  {
    OtherSurvives(v, f, dch, v', f, dch, cur, vol, n, limit);
  }

  /* ---- sizes ---- */

  lemma BeyondEnd(j: nat, k: nat, cs: nat, off: nat)
    requires off < cs
    ensures j < k <==> j * cs + off < k * cs
  {
    if j < k { Steps(j, k, cs); } else { Scale(k, j, cs); }
  }
}
