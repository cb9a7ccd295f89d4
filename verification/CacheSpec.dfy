/** Buffers, disk and the plain disk they present, on values. */
module CacheSpec {

  const BSIZE: nat := 512
  const NBUF: nat := 30

  type Byte = b: nat | b < 256
  type Block = s: seq<Byte> | |s| == BSIZE witness seq(BSIZE, _ => 0)
  type Key = (nat, nat)             // device, block
  type Disk = map<Key, Block>

  /** struct buf without its list pointers. */
  datatype Buf = Buf(dirty: bool, valid: bool, refcnt: nat, dev: nat, block_id: nat, data: Block)

  const EMPTY := Buf(false, false, 0, 0, 0, seq(BSIZE, _ => 0))

  function KeyOf(b: Buf): Key { (b.dev, b.block_id) }

  ghost predicate Within(bufs: seq<Buf>, order: seq<nat>) {
    forall i: nat | i < |order| :: order[i] < |bufs|
  }

  /** Buffer b is free and all behind it are held. */
  ghost predicate LastFree(bufs: seq<Buf>, order: seq<nat>, b: nat)
    requires Within(bufs, order)
  {
    b < |bufs| && bufs[b].refcnt == 0
    && exists k: nat :: k < |order| && order[k] == b
                        && forall j: nat | k < j < |order| :: bufs[order[j]].refcnt > 0
  }

  /** Two buffers do not hold the same block (device 0 is "none"). */
  predicate Unlike(bufs: seq<Buf>, i: nat, j: nat)
    requires i < |bufs| && j < |bufs|
  {
    i != j && bufs[i].dev != 0 ==> KeyOf(bufs[i]) != KeyOf(bufs[j])
  }

  /** A valid buffer holds what was last written to its block. */
  predicate Loaded(bufs: seq<Buf>, view: Disk, i: nat)
    requires i < |bufs|
  {
    bufs[i].valid ==> bufs[i].dev != 0 && KeyOf(bufs[i]) in view && view[KeyOf(bufs[i])] == bufs[i].data
  }

  predicate Pending(bufs: seq<Buf>, i: nat, k: Key)
    requires i < |bufs|
  {
    bufs[i].valid && bufs[i].dirty && KeyOf(bufs[i]) == k
  }

  /** The disk is up to date unless a dirty buffer holds the block. */
  predicate Stored(bufs: seq<Buf>, disk: Disk, view: Disk, k: Key)
    requires k in disk && k in view
  {
    view[k] == disk[k] || exists i: nat :: i < |bufs| && Pending(bufs, i, k)
  }

  /** The cache presents the plain disk view. */
  ghost predicate Presents(bufs: seq<Buf>, disk: Disk, view: Disk) {
    && view.Keys == disk.Keys
    && (forall i: nat, j: nat {:trigger Unlike(bufs, i, j)} | i < |bufs| && j < |bufs| :: Unlike(bufs, i, j))
    && (forall i: nat {:trigger Loaded(bufs, view, i)} | i < |bufs| :: Loaded(bufs, view, i))
    && (forall k {:trigger Stored(bufs, disk, view, k)} | k in disk :: Stored(bufs, disk, view, k))
  }

  /** Between calls only valid buffers are dirty. Buffer x, if any, is being
      refilled: recycled with its old dirty flag but not yet valid. */
  ghost predicate Coherent(bufs: seq<Buf>, disk: Disk, view: Disk, x: int) {
    && Presents(bufs, disk, view)
    && (forall i: nat {:trigger bufs[i].dirty} | i < |bufs| && i != x :: bufs[i].dirty ==> bufs[i].valid)
  }

  predicate Cached(bufs: seq<Buf>, key: Key) {
    exists i: nat :: i < |bufs| && KeyOf(bufs[i]) == key
  }

  /** Writing a valid buffer back. */
  lemma FlushKeeps(bufs: seq<Buf>, disk: Disk, view: Disk, i: nat)
    requires Presents(bufs, disk, view) && i < |bufs| && bufs[i].valid
    ensures Presents(bufs, disk[KeyOf(bufs[i]) := bufs[i].data], view)
    ensures KeyOf(bufs[i]) in disk && view[KeyOf(bufs[i])] == bufs[i].data
  {
    var disk' := disk[KeyOf(bufs[i]) := bufs[i].data];
    assert Loaded(bufs, view, i);
    assert disk'.Keys == disk.Keys;
    forall k | k in disk'
      ensures Stored(bufs, disk', view, k)
    {
      assert Stored(bufs, disk, view, k);
    }
  }

  /** Giving an unheld, clean or written-back buffer to another block loses
      nothing. */
  lemma RecycleKeeps(bufs: seq<Buf>, disk: Disk, view: Disk, i: nat, key: Key, b: Buf)
    requires Presents(bufs, disk, view) && i < |bufs|
    requires bufs[i].dirty ==> KeyOf(bufs[i]) in disk && disk[KeyOf(bufs[i])] == bufs[i].data
    requires key.0 != 0 && KeyOf(b) == key && !b.valid && !Cached(bufs, key)
    ensures Presents(bufs[i := b], disk, view)
  {
    var bufs' := bufs[i := b];
    forall j: nat, l: nat | j < |bufs'| && l < |bufs'|
      ensures Unlike(bufs', j, l)
    {
      assert Unlike(bufs, j, l);
    }
    forall j: nat | j < |bufs'|
      ensures Loaded(bufs', view, j)
    {
      assert Loaded(bufs, view, j);
    }
    forall k | k in disk
      ensures Stored(bufs', disk, view, k)
    {
      assert Stored(bufs, disk, view, k) && Loaded(bufs, view, i);
      if view[k] != disk[k] {
        var j: nat :| j < |bufs| && Pending(bufs, j, k);
        assert j != i;
        assert Pending(bufs', j, k);
      }
    }
  }

  /** Reading a recycled buffer from the disk gives the current contents. */
  lemma FillKeeps(bufs: seq<Buf>, disk: Disk, view: Disk, i: nat)
    requires Presents(bufs, disk, view) && i < |bufs| && !bufs[i].valid
    requires bufs[i].dev != 0 && KeyOf(bufs[i]) in disk
    ensures Presents(bufs[i := bufs[i].(data := disk[KeyOf(bufs[i])], valid := true)], disk, view)
    ensures view[KeyOf(bufs[i])] == disk[KeyOf(bufs[i])]
  {
    var bufs' := bufs[i := bufs[i].(data := disk[KeyOf(bufs[i])], valid := true)];
    assert Stored(bufs, disk, view, KeyOf(bufs[i]));
    forall j: nat | j < |bufs|
      ensures !Pending(bufs, j, KeyOf(bufs[i]))
    {
      assert Unlike(bufs, i, j);
    }
    forall j: nat, l: nat | j < |bufs'| && l < |bufs'|
      ensures Unlike(bufs', j, l)
    {
      assert Unlike(bufs, j, l);
    }
    forall j: nat | j < |bufs'|
      ensures Loaded(bufs', view, j)
    {
      assert Loaded(bufs, view, j);
    }
    forall k | k in disk
      ensures Stored(bufs', disk, view, k)
    {
      assert Stored(bufs, disk, view, k);
      if view[k] != disk[k] {
        var j: nat :| j < |bufs| && Pending(bufs, j, k);
        assert Pending(bufs', j, k);
      }
    }
  }

  /** Changing a valid buffer's data and marking it dirty writes its block. */
  lemma ModifyKeeps(bufs: seq<Buf>, disk: Disk, view: Disk, i: nat, data: Block)
    requires Presents(bufs, disk, view) && i < |bufs| && bufs[i].valid
    ensures KeyOf(bufs[i]) in view
    ensures Presents(bufs[i := bufs[i].(data := data, dirty := true)], disk, view[KeyOf(bufs[i]) := data])
  {
    var bufs' := bufs[i := bufs[i].(data := data, dirty := true)];
    var view' := view[KeyOf(bufs[i]) := data];
    assert Loaded(bufs, view, i);
    assert view'.Keys == view.Keys;
    forall j: nat, l: nat | j < |bufs'| && l < |bufs'|
      ensures Unlike(bufs', j, l)
    {
      assert Unlike(bufs, j, l);
    }
    forall j: nat | j < |bufs'|
      ensures Loaded(bufs', view', j)
    {
      assert Loaded(bufs, view, j) && Unlike(bufs, i, j);
    }
    assert Pending(bufs', i, KeyOf(bufs[i]));
    forall k | k in disk
      ensures Stored(bufs', disk, view', k)
    {
      assert Stored(bufs, disk, view, k);
      if view[k] != disk[k] {
        var j: nat :| j < |bufs| && Pending(bufs, j, k);
        assert Pending(bufs', j, k);
      }
    }
  }

  /** Reference counts are no part of the contents. */
  lemma CountKeeps(bufs: seq<Buf>, disk: Disk, view: Disk, i: nat, n: nat)
    requires Presents(bufs, disk, view) && i < |bufs|
    ensures Presents(bufs[i := bufs[i].(refcnt := n)], disk, view)
  {
    var bufs' := bufs[i := bufs[i].(refcnt := n)];
    forall j: nat, l: nat | j < |bufs'| && l < |bufs'|
      ensures Unlike(bufs', j, l)
    {
      assert Unlike(bufs, j, l);
    }
    forall j: nat | j < |bufs'|
      ensures Loaded(bufs', view, j)
    {
      assert Loaded(bufs, view, j);
    }
    forall k | k in disk
      ensures Stored(bufs', disk, view, k)
    {
      assert Stored(bufs, disk, view, k);
      if view[k] != disk[k] {
        var j: nat :| j < |bufs| && Pending(bufs, j, k);
        assert Pending(bufs', j, k);
      }
    }
  }

  /** A clean valid buffer equals the disk. */
  lemma CleanIsOnDisk(bufs: seq<Buf>, disk: Disk, view: Disk, i: nat)
    requires Presents(bufs, disk, view) && i < |bufs| && bufs[i].valid && !bufs[i].dirty
    ensures KeyOf(bufs[i]) in disk && disk[KeyOf(bufs[i])] == bufs[i].data
  {
    var k := KeyOf(bufs[i]);
    assert Loaded(bufs, view, i) && Stored(bufs, disk, view, k);
    forall j: nat | j < |bufs|
      ensures !Pending(bufs, j, k)
    {
      assert Unlike(bufs, i, j);
    }
  }

  predicate Flushed(bufs: seq<Buf>, disk: Disk, i: nat)
    requires i < |bufs|
  {
    bufs[i].dirty ==> KeyOf(bufs[i]) in disk && disk[KeyOf(bufs[i])] == bufs[i].data
  }

  /** Once every dirty buffer agrees with the disk, the disk is the plain disk. */
  lemma AllFlushed(bufs: seq<Buf>, disk: Disk, view: Disk)
    requires Presents(bufs, disk, view)
    requires forall i: nat {:trigger Flushed(bufs, disk, i)} | i < |bufs| :: Flushed(bufs, disk, i)
    ensures disk == view
  {
    forall k | k in disk
      ensures disk[k] == view[k]
    {
      assert Stored(bufs, disk, view, k);
      forall j: nat | j < |bufs| && Pending(bufs, j, k)
        ensures view[k] == disk[k]
      {
        assert Loaded(bufs, view, j) && Flushed(bufs, disk, j);
      }
    }
  }

  /* ---- volumes ---- */

  /** A superblock seen from the cache: block b of the volume is real block
      blocks[b] of the device, whatever the mount depth. */
  datatype Volume = Volume(dev: nat, blocks: seq<nat>)

  ghost predicate OnDisk(vol: Volume, disk: Disk) {
    vol.dev != 0 && forall i | 0 <= i < |vol.blocks| :: (vol.dev, vol.blocks[i]) in disk
  }

  ghost predicate OneToOne(vol: Volume) {
    forall i, j | 0 <= i < j < |vol.blocks| :: vol.blocks[i] != vol.blocks[j]
  }

  /** Byte a of the volume. */
  function ByteAt(view: Disk, vol: Volume, a: nat): Byte
    requires a < |vol.blocks| * BSIZE && (vol.dev, vol.blocks[a / BSIZE]) in view
  {
    view[(vol.dev, vol.blocks[a / BSIZE])][a % BSIZE]
  }

  ghost function Slice(view: Disk, vol: Volume, a: nat, n: nat): (s: seq<Byte>)
    requires OnDisk(vol, view) && a + n <= |vol.blocks| * BSIZE
    ensures |s| == n
  {
    seq<Byte>(n, i requires 0 <= i < n => ByteAt(view, vol, a + i))
  }

  lemma JoinSlices(view: Disk, vol: Volume, a: nat, m: nat, n: nat)
    requires OnDisk(vol, view) && a + m + n <= |vol.blocks| * BSIZE
    ensures Slice(view, vol, a, m) + Slice(view, vol, a + m, n) == Slice(view, vol, a, m + n)
  {
  }

  lemma InBlock(bid: nat, o: nat)
    requires o < BSIZE
    ensures (bid * BSIZE + o) / BSIZE == bid && (bid * BSIZE + o) % BSIZE == o
  {
  }

  lemma BlockSlice(view: Disk, vol: Volume, bid: nat, off: nat, n: nat)
    requires OnDisk(vol, view) && bid < |vol.blocks| && off + n <= BSIZE
    ensures (vol.dev, vol.blocks[bid]) in view
    ensures Slice(view, vol, bid * BSIZE + off, n) == view[(vol.dev, vol.blocks[bid])][off..off + n]
  {
    var s := Slice(view, vol, bid * BSIZE + off, n);
    forall i | 0 <= i < n
      ensures s[i] == view[(vol.dev, vol.blocks[bid])][off..off + n][i]
    {
      InBlock(bid, off + i);
      assert bid * BSIZE + off + i == bid * BSIZE + (off + i);
      assert s[i] == ByteAt(view, vol, bid * BSIZE + off + i);
    }
  }

  function Patched(view: Disk, vol: Volume, bid: nat, off: nat, part: seq<Byte>): Disk
    requires bid < |vol.blocks| && (vol.dev, vol.blocks[bid]) in view && off + |part| <= BSIZE
  {
    var key := (vol.dev, vol.blocks[bid]);
    view[key := view[key][..off] + part + view[key][off + |part|..]]
  }

  /** v1 is v0 with the bytes stored from address a of the volume on. */
  ghost predicate Overwrites(v0: Disk, v1: Disk, vol: Volume, a: nat, bytes: seq<Byte>) {
    && v1.Keys == v0.Keys && OnDisk(vol, v0) && OnDisk(vol, v1)
    && (forall k | k in v0 && (k.0 != vol.dev || k.1 !in vol.blocks) :: v1[k] == v0[k])
    && (forall x: nat {:trigger ByteAt(v1, vol, x)} | x < |vol.blocks| * BSIZE ::
          ByteAt(v1, vol, x) == if a <= x < a + |bytes| then bytes[x - a] else ByteAt(v0, vol, x))
  }

  lemma NothingYet(v: Disk, vol: Volume, a: nat)
    requires OnDisk(vol, v)
    ensures Overwrites(v, v, vol, a, [])
  {
  }

  lemma SplitAddress(block_id: nat, offset: nat)
    ensures (block_id + offset / BSIZE) * BSIZE + offset % BSIZE == block_id * BSIZE + offset
  {
  }

  lemma PatchedByte(view: Disk, vol: Volume, bid: nat, off: nat, part: seq<Byte>, x: nat)
    requires OnDisk(vol, view) && OneToOne(vol) && bid < |vol.blocks| && off + |part| <= BSIZE
    requires x < |vol.blocks| * BSIZE
    ensures (vol.dev, vol.blocks[bid]) in view && OnDisk(vol, Patched(view, vol, bid, off, part))
    ensures ByteAt(Patched(view, vol, bid, off, part), vol, x)
         == var a := bid * BSIZE + off;
            if a <= x < a + |part| then part[x - a] else ByteAt(view, vol, x)
  {
    assert x == (x / BSIZE) * BSIZE + x % BSIZE;
  }

  lemma OverwriteMore(v0: Disk, v: Disk, v': Disk, vol: Volume, a: nat, done: seq<Byte>,
                      bid: nat, off: nat, part: seq<Byte>)
    requires Overwrites(v0, v, vol, a, done) && OneToOne(vol)
    requires bid < |vol.blocks| && off + |part| <= BSIZE && bid * BSIZE + off == a + |done|
    requires (vol.dev, vol.blocks[bid]) in v && v' == Patched(v, vol, bid, off, part)
    ensures Overwrites(v0, v', vol, a, done + part)
  {
    assert v'.Keys == v.Keys;
    assert OnDisk(vol, v');
    forall x: nat | x < |vol.blocks| * BSIZE
      ensures ByteAt(v', vol, x)
           == if a <= x < a + |done + part| then (done + part)[x - a] else ByteAt(v0, vol, x)
    {
      PatchedByte(v, vol, bid, off, part, x);
      assert ByteAt(v, vol, x) == if a <= x < a + |done| then done[x - a] else ByteAt(v0, vol, x);
    }
  }
}
