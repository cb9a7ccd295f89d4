/** File systems mounted from image files, to any depth: the block translation of
    `kernel/fs.c` and `get_bid_from_son` of `kernel/fat32.c`. */
module Mount {
  import opened Arith
  import opened CacheSpec
  import opened FatSpec
  import opened FatFile
  import opened Fat

  /** superblock_t: a file system on a device, or in the file of its parent whose
      first cluster is id_in_parent. */
  datatype Super =
    | Real(real_dev: nat, info: Info, fat: seq<nat>)
    | Mounted(parent: Super, id_in_parent: nat, info: Info, fat: seq<nat>)

  ghost predicate HasFile(fat: seq<nat>, id: nat, limit: nat) {
    exists ch :: IsFile(fat, ch, limit) && ch[0] == id
  }

  ghost function ChainOf(fat: seq<nat>, id: nat, limit: nat): (ch: seq<nat>)
    requires HasFile(fat, id, limit)
    ensures IsFile(fat, ch, limit) && ch[0] == id
    ensures ch != [] && IsChain(fat, ch) && Clusters(ch, limit)
  {
    var ch :| IsFile(fat, ch, limit) && ch[0] == id;
    ch
  }

  /** Block bid of the file with this chain; -1 behind its end. */
  ghost function BlockOfFile(n: Info, ch: seq<nat>, bid: int): int
    requires n.root_cid >= 2 && BlocksPerCluster(n) > 0 && ch != [] && forall i | 0 <= i < |ch| :: ch[i] >= 2
  {
    if bid < 0 then ClusterBlock(n, ch[0]) + bid
    else if bid < |ch| * BlocksPerCluster(n) then
      BelowCount(bid, |ch|, BlocksPerCluster(n));
      ClusterBlock(n, ch[bid / BlocksPerCluster(n)]) + bid % BlocksPerCluster(n)
    else -1
  }

  lemma BelowCount(x: nat, len: nat, step: nat)
    requires step > 0 && x < len * step
    ensures x / step < len && x == (x / step) * step + x % step
  {
    if len <= x / step { Scale(len, x / step, step); }
  }

  /** The blocks of a file system, as real blocks of its device. */
  ghost function VolumeOf(sb: Super, size: nat): (v: Volume)
    requires Sound(sb, size)
    ensures OneToOne(v)
    decreases sb, 1
  {
    match sb
    case Real(dev, _, _) => Volume(dev, seq<nat>(size, i requires 0 <= i < size => i))
    case Mounted(p, id, _, _) =>
      var v, ch := VolumeOf(p, size), ChainOf(p.fat, id, LimitOf(p, size));
      LimitIsGeometry(p.info, v, |p.fat|);
      FileBlocksApart(p.info, v, LimitOf(p, size), ch);
      FileVolume(p.info, v, ch)
  }

  /** Two more than the number of clusters of a file system. */
  ghost function LimitOf(sb: Super, size: nat): (limit: nat)
    requires Sound(sb, size) && Sane(sb.info) && |sb.fat| >= 2
    ensures 2 <= limit <= |sb.fat|
    decreases sb, 2
  {
    ClusterLimit(sb.info, |VolumeOf(sb, size).blocks|, |sb.fat|)
  }

  /** The volume made of the blocks of a file of volume v. */
  ghost function FileVolume(n: Info, v: Volume, ch: seq<nat>): (w: Volume)
    requires InFile(n, v, ch)
    ensures w.dev == v.dev && |w.blocks| == |ch| * BlocksPerCluster(n)
  {
    Volume(v.dev, seq<nat>(|ch| * BlocksPerCluster(n), k requires 0 <= k < |ch| * BlocksPerCluster(n) =>
                           FileBlock(n, v, ch, k)))
  }

  ghost predicate InFile(n: Info, v: Volume, ch: seq<nat>) {
    BlocksPerCluster(n) > 0 && ch != [] && forall i | 0 <= i < |ch| :: OnVolume(v, n, ch[i])
  }

  ghost function FileBlock(n: Info, v: Volume, ch: seq<nat>, k: nat): nat
    requires InFile(n, v, ch) && k < |ch| * BlocksPerCluster(n)
  {
    BelowCount(k, |ch|, BlocksPerCluster(n));
    assert OnVolume(v, n, ch[k / BlocksPerCluster(n)]);
    v.blocks[ClusterBlock(n, ch[k / BlocksPerCluster(n)]) + k % BlocksPerCluster(n)]
  }

  /** Every image lies in a file of its parent. */
  ghost predicate Sound(sb: Super, size: nat)
    decreases sb, 0
  {
    match sb
    case Real(dev, _, _) => dev != 0
    case Mounted(p, id, _, _) =>
      Sound(p, size) && Sane(p.info) && |p.fat| >= 2 && HasFile(p.fat, id, LimitOf(p, size))
  }

  /** Different blocks of a file are different blocks of its volume. */
  lemma FileBlocksApart(n: Info, v: Volume, limit: nat, ch: seq<nat>)
    requires Geometry(n, v, limit) && Clusters(ch, limit) && OneToOne(v) && ch != []
    ensures InFile(n, v, ch) && OneToOne(FileVolume(n, v, ch))
  {
    Positive(n.sectors_per_cluster, n.blocks_per_sector);
    var w := FileVolume(n, v, ch);
    forall i: nat, j: nat | i < j < |w.blocks|
      ensures w.blocks[i] != w.blocks[j]
    {
      TwoBlocks(n, v, limit, ch, i, j);
    }
  }

  lemma TwoBlocks(n: Info, v: Volume, limit: nat, ch: seq<nat>, i: nat, j: nat)
    requires Geometry(n, v, limit) && Clusters(ch, limit) && OneToOne(v) && InFile(n, v, ch)
    requires i < j < |ch| * BlocksPerCluster(n)
    ensures FileBlock(n, v, ch, i) != FileBlock(n, v, ch, j)
  {
    hide ClusterBlock, BlocksPerCluster, FileVolume, Geometry;
    var step := BlocksPerCluster(n);
    BelowCount(i, |ch|, step);
    BelowCount(j, |ch|, step);
    Ordered(i, j, step);
    var c, d := ch[i / step], ch[j / step];
    assert OnVolume(v, n, c) && OnVolume(v, n, d);
    PlacesApart(n, v, limit, c, i % step, d, j % step);
    var a, b := ClusterBlock(n, c) + i % step, ClusterBlock(n, d) + j % step;
    assert v.blocks[a] != v.blocks[b];
  }

  lemma Ordered(i: nat, j: nat, step: nat)
    requires i < j && step > 0
    ensures i / step < j / step || (i / step == j / step && i % step < j % step)
  {
    if j / step < i / step { NextMultiple(j / step, step); Scale(j / step + 1, i / step, step); }
  }

  lemma PlacesApart(n: Info, v: Volume, limit: nat, c: nat, x: nat, d: nat, y: nat)
    requires Geometry(n, v, limit) && 2 <= c < limit && 2 <= d < limit && x < BlocksPerCluster(n)
             && y < BlocksPerCluster(n)
    requires c != d || x != y
    ensures ClusterBlock(n, c) + x != ClusterBlock(n, d) + y
  {
    hide ClusterBlock, BlocksPerCluster;
  }

  /* ---- the translation ---- */

  /** `get_real_bid`, on values. */
  ghost function RealBid(sb: Super, size: nat, bid: int): int
    requires Sound(sb, size)
    decreases sb
  {
    match sb
    case Real(_, _, _) => bid
    case Mounted(p, id, _, _) =>
      StepPositive(p, size);
      RealBid(p, size, BlockOfFile(p.info, ChainOf(p.fat, id, LimitOf(p, size)), bid))
  }

  lemma StepPositive(p: Super, size: nat)
    requires Sound(p, size) && Sane(p.info) && |p.fat| >= 2
    ensures BlocksPerCluster(p.info) > 0 && Geometry(p.info, VolumeOf(p, size), LimitOf(p, size))
  {
    Positive(p.info.sectors_per_cluster, p.info.blocks_per_sector);
    LimitIsGeometry(p.info, VolumeOf(p, size), |p.fat|);
  }

  /** `get_bid_from_son`. */
  method GetBidFromSon(n: Info, fat: seq<nat>, ghost ch: seq<nat>, id: nat, bid: int) returns (r: int)
    requires IsChain(fat, ch) && ch[0] == id && n.root_cid >= 2 && BlocksPerCluster(n) > 0
    ensures r == BlockOfFile(n, ch, bid)
  {
    hide ClusterBlock, BlocksPerCluster, IsValidCid;
    var step, cid, left := BlocksPerCluster(n), id, bid;
    ghost var j: nat := 0;
    while left >= step
      invariant j < |ch| && cid == ch[j] && j * step + left == bid && (j > 0 ==> left >= 0)
      decreases left
    {
      Next(fat, ch, j);
      NextMultiple(j, step);
      cid := fat[cid];
      if !IsValidCid(cid) {
        return -1;
      }
      left := left - step;
      j := j + 1;
    }
    if bid >= 0 { Position(bid, j, left, step, |ch|); }
    r := ClusterBlock(n, cid) + left;
  }

  lemma Position(x: nat, j: nat, rest: int, step: nat, len: nat)
    requires step > 0 && rest < step && j * step + rest == x && (j > 0 ==> rest >= 0) && j < len
    ensures x / step == j && x % step == rest && x < len * step
  {
    BeyondEnd(j, len, step, rest);
    Quotient(j, rest, step);
  }

  /** `get_real_bid`. */
  method GetRealBid(sb: Super, ghost size: nat, bid: int) returns (r: int)
    requires Sound(sb, size)
    ensures r == RealBid(sb, size, bid)
  {
    var s := sb;
    r := bid;
    while s.Mounted?
      invariant Sound(s, size) && RealBid(s, size, r) == RealBid(sb, size, bid)
      decreases s
    {
      StepPositive(s.parent, size);
      var id := s.id_in_parent;
      s := s.parent;
      r := GetBidFromSon(s.info, s.fat, ChainOf(s.fat, id, LimitOf(s, size)), id, r);
    }
  }

  /** The file system below all the mounts. */
  predicate Bottom(sb: Super, r: Super)
    decreases sb
  {
    r.Real? && (sb == r || (sb.Mounted? && Bottom(sb.parent, r)))
  }

  /** `get_real_dev`: the device of the file system below all the mounts, which is
      where the blocks of the volume are. */
  method GetRealDev(sb: Super, ghost size: nat) returns (dev: nat)
    requires Sound(sb, size)
    ensures dev == VolumeOf(sb, size).dev
    ensures exists r :: Bottom(sb, r) && r.real_dev == dev
  {
    var s := sb;
    while s.Mounted?
      invariant Sound(s, size) && VolumeOf(s, size).dev == VolumeOf(sb, size).dev
      invariant forall r :: Bottom(s, r) ==> Bottom(sb, r)
      decreases s
    {
      s := s.parent;
    }
    assert Bottom(s, s);
    dev := s.real_dev;
  }

  /** Blocks of a file system on a device are the blocks of that device. */
  lemma RealVolume(sb: Super, size: nat)
    requires sb.Real? && Sound(sb, size)
    ensures VolumeOf(sb, size).dev == sb.real_dev && |VolumeOf(sb, size).blocks| == size
    ensures forall k | 0 <= k < size :: VolumeOf(sb, size).blocks[k] == k
  {
  }

  /** The volume of the file system that holds the image, and the image's file. */
  ghost function Below(sb: Super, size: nat): Volume
    requires sb.Mounted? && Sound(sb, size)
  {
    VolumeOf(sb.parent, size)
  }

  ghost function ImageChain(sb: Super, size: nat): (ch: seq<nat>)
    requires sb.Mounted? && Sound(sb, size)
    ensures InFile(sb.parent.info, Below(sb, size), ch) && Clusters(ch, LimitOf(sb.parent, size))
    ensures VolumeOf(sb, size) == FileVolume(sb.parent.info, Below(sb, size), ch)
  {
    StepPositive(sb.parent, size);
    FileBlocksApart(sb.parent.info, Below(sb, size), LimitOf(sb.parent, size),
                    ChainOf(sb.parent.fat, sb.id_in_parent, LimitOf(sb.parent, size)));
    ChainOf(sb.parent.fat, sb.id_in_parent, LimitOf(sb.parent, size))
  }

  lemma TranslateOnce(sb: Super, size: nat, k: nat)
    requires sb.Mounted? && Sound(sb, size) && k < |VolumeOf(sb, size).blocks|
    ensures var p := sb.parent;
            && Sound(p, size) && Sane(p.info) && |p.fat| >= 2 && HasFile(p.fat, sb.id_in_parent, LimitOf(p, size))
            && BlocksPerCluster(p.info) > 0
            && (var b := BlockOfFile(p.info, ChainOf(p.fat, sb.id_in_parent, LimitOf(p, size)), k);
                && 0 <= b < |VolumeOf(p, size).blocks|
                && VolumeOf(sb, size).blocks[k] == VolumeOf(p, size).blocks[b]
                && RealBid(sb, size, k) == RealBid(p, size, b))
  {
    hide ClusterBlock, BlocksPerCluster, Geometry, IsChain, VolumeOf;
    var n, v, ch := sb.parent.info, VolumeOf(sb.parent, size), ImageChain(sb, size);
    StepPositive(sb.parent, size);
    BelowCount(k, |ch|, BlocksPerCluster(n));
    assert OnVolume(v, n, ch[k / BlocksPerCluster(n)]);
    assert VolumeOf(sb, size).blocks[k] == FileBlock(n, v, ch, k);
  }

  /** At any depth the translation of a block of the image is its entry in the
      volume. */
  lemma {:induction false} TranslationIsVolume(sb: Super, size: nat, k: nat)
    requires Sound(sb, size) && k < |VolumeOf(sb, size).blocks|
    ensures RealBid(sb, size, k) == VolumeOf(sb, size).blocks[k]
    decreases sb
  {
    match sb
    case Real(_, _, _) =>
    case Mounted(p, id, _, _) =>
      TranslateOnce(sb, size, k);
      hide BlockOfFile, ChainOf, RealBid, VolumeOf, Sound;
      StepPositive(p, size);
      TranslationIsVolume(p, size, BlockOfFile(p.info, ChainOf(p.fat, id, LimitOf(p, size)), k));
  }

  /** Different blocks are translated to different real blocks. */
  lemma TranslationInjective(sb: Super, size: nat, k: nat, l: nat)
    requires Sound(sb, size) && k < |VolumeOf(sb, size).blocks| && l < |VolumeOf(sb, size).blocks| && k != l
    ensures RealBid(sb, size, k) != RealBid(sb, size, l)
  {
    TranslationIsVolume(sb, size, k);
    TranslationIsVolume(sb, size, l);
  }

  lemma FileOnDisk(n: Info, v: Volume, ch: seq<nat>, view: Disk)
    requires InFile(n, v, ch) && OnDisk(v, view)
    ensures OnDisk(FileVolume(n, v, ch), view) && Readable(view, v, n, ch)
  {
    hide ClusterBlock, BlocksPerCluster;
    var w := FileVolume(n, v, ch);
    forall k: nat | k < |w.blocks|
      ensures (w.dev, w.blocks[k]) in view
    {
      BelowCount(k, |ch|, BlocksPerCluster(n));
      assert OnVolume(v, n, ch[k / BlocksPerCluster(n)]);
    }
  }

  /** Byte x of the volume made of a file is byte x of the file. */
  lemma FileByte(n: Info, v: Volume, ch: seq<nat>, view: Disk, x: nat)
    requires InFile(n, v, ch) && OnDisk(v, view) && x < |ch| * ClusterSize(n)
    ensures Readable(view, v, n, ch) && |Content(view, v, n, ch)| == |ch| * ClusterSize(n)
    ensures OnDisk(FileVolume(n, v, ch), view) && x < |FileVolume(n, v, ch).blocks| * BSIZE
    ensures ByteAt(view, FileVolume(n, v, ch), x) == Content(view, v, n, ch)[x]
  {
    hide Content, ClusterBlock, Readable, ReadsAs;
    FileOnDisk(n, v, ch, view);
    ContentLength(view, v, n, ch);
    var step, k := BlocksPerCluster(n), x / BSIZE;
    Regroup(|ch|, step, BSIZE);
    BelowCount(k, |ch|, step);
    var j, r := k / step, k % step;
    assert OnVolume(v, n, ch[j]);
    var off := r * BSIZE + x % BSIZE;
    FileOffset(x, j, r, step);
    ReadInChain(view, v, n, ch, j, off, 1);
    var a := ClusterBlock(n, ch[j]) * BSIZE + off;
    OneByte(view, v, n, ch, x, a);
    InBlock(ClusterBlock(n, ch[j]) + r, x % BSIZE);
    assert a == (ClusterBlock(n, ch[j]) + r) * BSIZE + x % BSIZE;
  }

  lemma OneByte(view: Disk, v: Volume, n: Info, ch: seq<nat>, p: nat, a: nat)
    requires ReadsAs(view, v, n, ch, p, 1, a)
    ensures a < |v.blocks| * BSIZE && OnDisk(v, view) && Readable(view, v, n, ch) && p < |Content(view, v, n, ch)|
    ensures ByteAt(view, v, a) == Content(view, v, n, ch)[p]
  {
    hide Content;
    assert Slice(view, v, a, 1)[0] == Content(view, v, n, ch)[p..p + 1][0];
  }

  lemma FileOffset(x: nat, j: nat, r: nat, step: nat)
    requires step > 0 && j == (x / BSIZE) / step && r == (x / BSIZE) % step
    ensures j * (step * BSIZE) + (r * BSIZE + x % BSIZE) == x && r * BSIZE + x % BSIZE < step * BSIZE
  {
    Regroup(j, step, BSIZE);
    Scale(r + 1, step, BSIZE);
    assert x / BSIZE == j * step + r;
  }

  /** The bytes of a volume, end to end. */
  ghost predicate HoldsBytes(view: Disk, w: Volume, c: seq<Byte>) {
    && OnDisk(w, view) && |c| == |w.blocks| * BSIZE
    && forall x: nat {:trigger ByteAt(view, w, x)} | x < |c| :: ByteAt(view, w, x) == c[x]
  }

  lemma FileHolds(n: Info, v: Volume, ch: seq<nat>, view: Disk)
    requires InFile(n, v, ch) && OnDisk(v, view)
    ensures Readable(view, v, n, ch) && HoldsBytes(view, FileVolume(n, v, ch), Content(view, v, n, ch))
  {
    hide Content, Readable, ClusterBlock, ClusterSize, BlocksPerCluster;
    FileOnDisk(n, v, ch, view);
    ContentLength(view, v, n, ch);
    SizeInBlocks(|ch|, n);
    forall x: nat | x < |ch| * ClusterSize(n)
      ensures ByteAt(view, FileVolume(n, v, ch), x) == Content(view, v, n, ch)[x]
    {
      FileByte(n, v, ch, view, x);
    }
  }

  /** The blocks of a mounted image, end to end, are its file as read through the
      parent. */
  lemma ImageIsFile(sb: Super, size: nat, view: Disk)
    requires sb.Mounted? && Sound(sb, size) && OnDisk(Below(sb, size), view)
    ensures Readable(view, Below(sb, size), sb.parent.info, ImageChain(sb, size))
    ensures HoldsBytes(view, VolumeOf(sb, size), Content(view, Below(sb, size), sb.parent.info, ImageChain(sb, size)))
  {
    hide Content, Readable, OnDisk, Geometry, Sound, HoldsBytes, VolumeOf, FileVolume, InFile;
    FileHolds(sb.parent.info, Below(sb, size), ImageChain(sb, size), view);
  }

  /** At any depth, block k of an image is the real block that holds bytes 512 k
      to 512 k + 511 of the image file. */
  lemma ImageBlock(sb: Super, size: nat, view: Disk, k: nat)
    requires sb.Mounted? && Sound(sb, size) && OnDisk(Below(sb, size), view) && k < |VolumeOf(sb, size).blocks|
    ensures var v, r := VolumeOf(sb, size), RealBid(sb, size, k);
            && r >= 0 && (v.dev, r) in view && Readable(view, Below(sb, size), sb.parent.info, ImageChain(sb, size))
            && (var c := Content(view, Below(sb, size), sb.parent.info, ImageChain(sb, size));
                (k + 1) * BSIZE <= |c| && view[(v.dev, r)] == c[k * BSIZE..(k + 1) * BSIZE])
  {
    hide Content, Readable, Geometry, ClusterBlock, Sound, ClusterSize, BlocksPerCluster, RealBid;
    ImageIsFile(sb, size, view);
    TranslationIsVolume(sb, size, k);
    WholeBlock(view, VolumeOf(sb, size), Content(view, Below(sb, size), sb.parent.info, ImageChain(sb, size)), k);
  }

  lemma SizeInBlocks(len: nat, n: Info)
    ensures len * ClusterSize(n) == len * BlocksPerCluster(n) * BSIZE
  {
    Regroup(len, BlocksPerCluster(n), BSIZE);
  }

  lemma WholeBlock(view: Disk, w: Volume, c: seq<Byte>, k: nat)
    requires HoldsBytes(view, w, c) && k < |w.blocks|
    ensures (w.dev, w.blocks[k]) in view && view[(w.dev, w.blocks[k])] == c[k * BSIZE..(k + 1) * BSIZE]
  {
    forall i: nat | i < BSIZE
      ensures view[(w.dev, w.blocks[k])][i] == c[k * BSIZE..(k + 1) * BSIZE][i]
    {
      InBlock(k, i);
      assert ByteAt(view, w, k * BSIZE + i) == c[k * BSIZE + i];
    }
  }

  /** A store into the mounted volume is a store into the image file, and into
      nothing else of the parent. */
  lemma StoreIsFileStore(sb: Super, size: nat, v0: Disk, v1: Disk, a: nat, bytes: seq<Byte>)
    requires sb.Mounted? && Sound(sb, size) && OnDisk(Below(sb, size), v0)
    requires Overwrites(v0, v1, VolumeOf(sb, size), a, bytes) && a + |bytes| <= |VolumeOf(sb, size).blocks| * BSIZE
    ensures var n, v, ch := sb.parent.info, Below(sb, size), ImageChain(sb, size);
            && Readable(v0, v, n, ch) && Readable(v1, v, n, ch)
            && (var c := Content(v0, v, n, ch);
                a + |bytes| <= |c| && Content(v1, v, n, ch) == c[..a] + bytes + c[a + |bytes|..])
            && forall d: seq<nat> | IsFile(sb.parent.fat, d, LimitOf(sb.parent, size)) && Apart(d, ch) ::
                 Readable(v0, v, n, d) && Readable(v1, v, n, d) && Content(v1, v, n, d) == Content(v0, v, n, d)
  {
    hide Content, Readable, Geometry, ClusterBlock, ClusterSize, IsChain;
    var n, v, ch, w := sb.parent.info, Below(sb, size), ImageChain(sb, size), VolumeOf(sb, size);
    assert OnDisk(v, v1);
    ImageIsFile(sb, size, v0);
    ImageIsFile(sb, size, v1);
    var c0, c1 := Content(v0, v, n, ch), Content(v1, v, n, ch);
    forall x: nat | x < |c0|
      ensures c1[x] == (c0[..a] + bytes + c0[a + |bytes|..])[x]
    {
      assert ByteAt(v1, w, x) == c1[x] && ByteAt(v0, w, x) == c0[x];
    }
    forall d: seq<nat> | IsFile(sb.parent.fat, d, LimitOf(sb.parent, size)) && Apart(d, ch)
      ensures Readable(v0, v, n, d) && Readable(v1, v, n, d) && Content(v1, v, n, d) == Content(v0, v, n, d)
    {
      OtherFileKept(sb, size, v0, v1, a, bytes, d);
    }
  }

  lemma OtherFileKept(sb: Super, size: nat, v0: Disk, v1: Disk, a: nat, bytes: seq<Byte>, d: seq<nat>)
    requires sb.Mounted? && Sound(sb, size) && OnDisk(Below(sb, size), v0) && OnDisk(Below(sb, size), v1)
    requires Overwrites(v0, v1, VolumeOf(sb, size), a, bytes)
    requires IsFile(sb.parent.fat, d, LimitOf(sb.parent, size)) && Apart(d, ImageChain(sb, size))
    ensures var n, v := sb.parent.info, Below(sb, size);
            Readable(v0, v, n, d) && Readable(v1, v, n, d) && Content(v1, v, n, d) == Content(v0, v, n, d)
  {
    var n, v, ch, limit := sb.parent.info, Below(sb, size), ImageChain(sb, size), LimitOf(sb.parent, size);
    StepPositive(sb.parent, size);
    ClustersReadable(v0, v, n, limit, d);
    ClustersReadable(v1, v, n, limit, d);
    forall i | 0 <= i < |d|
      ensures ClusterBytes(v1, v, n, d[i]) == ClusterBytes(v0, v, n, d[i])
    {
      assert d[i] in d;
      ClusterUntouched(n, v, limit, ch, v0, v1, a, bytes, d[i]);
    }
    ContentKept(v0, v1, v, n, d);
  }

  lemma ClusterUntouched(n: Info, v: Volume, limit: nat, ch: seq<nat>, v0: Disk, v1: Disk, a: nat, bytes: seq<Byte>,
                         c: nat)
    requires Geometry(n, v, limit) && Clusters(ch, limit) && OneToOne(v) && InFile(n, v, ch)
    requires OnDisk(v, v0) && OnDisk(v, v1) && Overwrites(v0, v1, FileVolume(n, v, ch), a, bytes)
    requires 2 <= c < limit && c !in ch
    ensures ClusterBytes(v1, v, n, c) == ClusterBytes(v0, v, n, c)
  {
    hide Content, ClusterBlock, ClusterSize;
    var s0, s1, w := ClusterBytes(v0, v, n, c), ClusterBytes(v1, v, n, c), FileVolume(n, v, ch);
    forall i: nat | i < ClusterSize(n)
      ensures s1[i] == s0[i]
    {
      var x := ClusterBlock(n, c) * BSIZE + i;
      OutsideFile(n, v, limit, ch, c, i);
      assert s1[i] == ByteAt(v1, v, x) && s0[i] == ByteAt(v0, v, x);
    }
  }

  /** The blocks of a cluster outside a chain are none of its file's blocks. */
  lemma OutsideFile(n: Info, v: Volume, limit: nat, ch: seq<nat>, c: nat, i: nat)
    requires Geometry(n, v, limit) && Clusters(ch, limit) && OneToOne(v) && InFile(n, v, ch)
    requires 2 <= c < limit && c !in ch && i < ClusterSize(n)
    ensures OnVolume(v, n, c) && (ClusterBlock(n, c) * BSIZE + i) / BSIZE < |v.blocks|
    ensures v.blocks[(ClusterBlock(n, c) * BSIZE + i) / BSIZE] !in FileVolume(n, v, ch).blocks
  {
    hide ClusterBlock, BlocksPerCluster, Geometry;
    var y := i / BSIZE;
    assert y < BlocksPerCluster(n);
    ClusterOnVolume(n, v, limit, c);
    InBlock(ClusterBlock(n, c) + y, i % BSIZE);
    assert ClusterBlock(n, c) * BSIZE + i == (ClusterBlock(n, c) + y) * BSIZE + i % BSIZE;
    var w, b := FileVolume(n, v, ch), ClusterBlock(n, c) + y;
    forall k: nat | k < |w.blocks|
      ensures w.blocks[k] != v.blocks[b]
    {
      OtherBlock(n, v, limit, ch, c, y, k);
    }
  }

  lemma OtherBlock(n: Info, v: Volume, limit: nat, ch: seq<nat>, c: nat, y: nat, k: nat)
    requires Geometry(n, v, limit) && Clusters(ch, limit) && OneToOne(v) && InFile(n, v, ch)
    requires 2 <= c < limit && c !in ch && y < BlocksPerCluster(n) && k < |ch| * BlocksPerCluster(n)
    ensures ClusterBlock(n, c) + y < |v.blocks| && FileBlock(n, v, ch, k) != v.blocks[ClusterBlock(n, c) + y]
  {
    hide ClusterBlock, BlocksPerCluster, Geometry, OneToOne;
    ClusterOnVolume(n, v, limit, c);
    var step := BlocksPerCluster(n);
    BelowCount(k, |ch|, step);
    var d := ch[k / step];
    assert OnVolume(v, n, d);
    PlacesApart(n, v, limit, c, y, d, k % step);
    BlocksDiffer(v, ClusterBlock(n, c) + y, ClusterBlock(n, d) + k % step);
  }

  lemma ClusterOnVolume(n: Info, v: Volume, limit: nat, c: nat)
    requires Geometry(n, v, limit) && 2 <= c < limit
    ensures OnVolume(v, n, c)
  {
  }

  lemma BlocksDiffer(v: Volume, a: nat, b: nat)
    requires OneToOne(v) && a < |v.blocks| && b < |v.blocks| && a != b
    ensures v.blocks[a] != v.blocks[b]
  {
  }

  /** A block behind the end of an image is reported as -1 exactly when the image
      is mounted from a file system on the device itself; deeper down the -1 is
      translated again, into a real block. */
  lemma BeyondImageIff(sb: Super, size: nat, k: nat)
    requires sb.Mounted? && Sound(sb, size) && k >= |VolumeOf(sb, size).blocks|
    requires sb.parent.Mounted? ==> FatStart(sb.parent.parent.info) > 0
    ensures RealBid(sb, size, k) == -1 <==> sb.parent.Real?
  {
    var p := sb.parent;
    var ch := ImageChain(sb, size);
    StepPositive(p, size);
    assert BlockOfFile(p.info, ChainOf(p.fat, sb.id_in_parent, LimitOf(p, size)), k) == -1;
    if p.Mounted? {
      var ch' := ImageChain(p, size);
      var g := p.parent;
      var b := ClusterBlock(g.info, ch'[0]) - 1;
      StepPositive(g, size);
      FirstBlock(g.info, Below(p, size), LimitOf(g, size), ch'[0]);
      assert BlockOfFile(g.info, ChainOf(g.fat, p.id_in_parent, LimitOf(g, size)), -1) == b;
      TranslationIsVolume(g, size, b);
    }
  }

  lemma FirstBlock(n: Info, v: Volume, limit: nat, c: nat)
    requires Geometry(n, v, limit) && 2 <= c < limit && FatStart(n) > 0
    ensures 0 < ClusterBlock(n, c) <= |v.blocks|
  {
    hide ClusterBlock, BlocksPerCluster, RootOffset, FatStart;
    assert OnVolume(v, n, c);
    InData(n, limit, c);
    DataBehindBoot(n);
  }

  lemma DataBehindBoot(n: Info)
    requires Sane(n) && FatStart(n) > 0
    ensures DataStart(n) > 0
  {
    RootBehindTables(n);
    ClusterAt(n, 2);
    hide RootOffset, FatStart, ClusterBlock, BlocksPerCluster;
    Positive(RootOffset(n), n.blocks_per_sector);
  }

  lemma RootBehindTables(n: Info)
    requires Sane(n) && FatStart(n) > 0
    ensures RootOffset(n) >= n.fat_offset > 0
  {
    var tables: nat, skipped: nat := n.fat_cnt * n.sectors_per_fat, (n.root_cid - 2) * n.sectors_per_cluster;
    assert RootOffset(n) == n.fat_offset + tables + n.hidden_sectors + skipped;
  }
}
