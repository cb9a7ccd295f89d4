/** The tables on disk: the two writes of `fresh_fat`, and when they keep both
    copies equal to the table in memory. */
module FatMirror {
  import opened CacheSpec
  import opened FatSpec

  function WordBytes(w: nat): (s: seq<Byte>)
    ensures |s| == 4
  {
    [w % 256, (w / 0x100) % 256, (w / 0x1_0000) % 256, (w / 0x100_0000) % 256]
  }

  /** A run of table words as it lies in memory. */
  function Encode(words: seq<nat>): (s: seq<Byte>)
    ensures |s| == 4 * |words|
  {
    if words == [] then [] else WordBytes(words[0]) + Encode(words[1..])
  }

  lemma {:induction false} EncodeAt(words: seq<nat>, x: nat)
    requires x < 4 * |words|
    ensures Encode(words)[x] == WordBytes(words[x / 4])[x % 4]
    decreases |words|
  {
    if x >= 4 {
      EncodeAt(words[1..], x - 4);
      assert (x - 4) / 4 == x / 4 - 1 && (x - 4) % 4 == x % 4;
    }
  }

  lemma WordBytesInjective(v: nat, w: nat)
    requires v < WORD32 && w < WORD32 && v != w
    ensures exists i :: 0 <= i < 4 && WordBytes(v)[i] != WordBytes(w)[i]
  {
    if forall i | 0 <= i < 4 :: WordBytes(v)[i] == WordBytes(w)[i] {
      assert WordBytes(v)[0] == WordBytes(w)[0] && WordBytes(v)[1] == WordBytes(w)[1];
      assert WordBytes(v)[2] == WordBytes(w)[2] && WordBytes(v)[3] == WordBytes(w)[3];
      Digits(v);
      Digits(w);
      assert false;
    }
  }

  lemma Digits(v: nat)
    requires v < WORD32
    ensures v == v % 256 + 0x100 * ((v / 0x100) % 256) + 0x1_0000 * ((v / 0x1_0000) % 256)
                 + 0x100_0000 * ((v / 0x100_0000) % 256)
  {
    var a, b, c := v / 0x100, v / 0x1_0000, v / 0x100_0000;
    assert b == a / 0x100 && c == b / 0x100 && c < 256;
  }

  predicate ByteHeld(view: Disk, vol: Volume, base: nat, fat: seq<nat>, x: nat)
    requires x < 4 * |fat| && base * BSIZE + x < |vol.blocks| * BSIZE
    requires (vol.dev, vol.blocks[(base * BSIZE + x) / BSIZE]) in view
  {
    ByteAt(view, vol, base * BSIZE + x) == WordBytes(fat[x / 4])[x % 4]
  }

  /** The copy starting at block base holds the table. */
  ghost predicate Mirrored(view: Disk, vol: Volume, base: nat, fat: seq<nat>) {
    && OnDisk(vol, view) && base * BSIZE + 4 * |fat| <= |vol.blocks| * BSIZE
    && forall x: nat {:trigger ByteHeld(view, vol, base, fat, x)} | x < 4 * |fat| :: ByteHeld(view, vol, base, fat, x)
  }

  /** Block k of the table. */
  function TableBlock(fat: seq<nat>, k: nat): (s: seq<Byte>)
    requires (k + 1) * 128 <= |fat|
    ensures |s| == BSIZE
  {
    Encode(fat[k * 128..(k + 1) * 128])
  }

  lemma TableByte(fat: seq<nat>, k: nat, y: nat)
    requires (k + 1) * 128 <= |fat| && y < BSIZE
    ensures TableBlock(fat, k)[y] == WordBytes(fat[(k * BSIZE + y) / 4])[(k * BSIZE + y) % 4]
  {
    EncodeAt(fat[k * 128..(k + 1) * 128], y);
    assert (k * BSIZE + y) / 4 == k * 128 + y / 4 && (k * BSIZE + y) % 4 == y % 4;
  }

  /** Writing block cid / 128 of the changed table into a copy brings that copy
      up to date. */
  lemma CopyUpdated(v0: Disk, v1: Disk, vol: Volume, base: nat, fat: seq<nat>, cid: nat, value: nat)
    requires Mirrored(v0, vol, base, fat) && cid < |fat| && |fat| % 128 == 0
    requires (cid / 128 + 1) * 128 <= |fat|
    requires Overwrites(v0, v1, vol, (base + cid / 128) * BSIZE, TableBlock(fat[cid := value], cid / 128))
    ensures Mirrored(v1, vol, base, fat[cid := value])
  {
    var fat', k := fat[cid := value], cid / 128;
    forall x: nat | x < 4 * |fat'|
      ensures ByteHeld(v1, vol, base, fat', x)
    {
      assert ByteHeld(v0, vol, base, fat, x);
      if k * BSIZE <= x < k * BSIZE + BSIZE {
        TableByte(fat', k, x - k * BSIZE);
      } else {
        assert x / 4 != cid;
      }
    }
  }

  /** A store elsewhere leaves a copy as it was. */
  lemma CopyKept(v0: Disk, v1: Disk, vol: Volume, base: nat, fat: seq<nat>, a: nat, bytes: seq<Byte>)
    requires Mirrored(v0, vol, base, fat) && Overwrites(v0, v1, vol, a, bytes)
    requires a + |bytes| <= base * BSIZE || base * BSIZE + 4 * |fat| <= a
    ensures Mirrored(v1, vol, base, fat)
  {
    forall x: nat | x < 4 * |fat|
      ensures ByteHeld(v1, vol, base, fat, x)
    {
      assert ByteHeld(v0, vol, base, fat, x);
    }
  }

  /** The four bytes of entry cid are the same on both disks. */
  ghost predicate SameEntry(v0: Disk, v1: Disk, vol: Volume, base: nat, cid: nat) {
    && OnDisk(vol, v0) && OnDisk(vol, v1) && base * BSIZE + 4 * cid + 4 <= |vol.blocks| * BSIZE
    && forall x: nat {:trigger ByteAt(v1, vol, x)} | base * BSIZE + 4 * cid <= x < base * BSIZE + 4 * cid + 4 ::
         ByteAt(v1, vol, x) == ByteAt(v0, vol, x)
  }

  /** A copy whose block for cid was not written is out of date. */
  lemma CopyStale(v0: Disk, v1: Disk, vol: Volume, base: nat, fat: seq<nat>, cid: nat, value: nat)
    requires Mirrored(v0, vol, base, fat) && cid < |fat| && SameEntry(v0, v1, vol, base, cid)
    requires fat[cid] < WORD32 && value < WORD32 && value != fat[cid]
    ensures !Mirrored(v1, vol, base, fat[cid := value])
  {
    WordBytesInjective(fat[cid], value);
    var i :| 0 <= i < 4 && WordBytes(fat[cid])[i] != WordBytes(value)[i];
    var x := 4 * cid + i;
    assert x / 4 == cid && x % 4 == i;
    assert ByteHeld(v0, vol, base, fat, x);
    assert !ByteHeld(v1, vol, base, fat[cid := value], x);
  }

  /** The two writes of a table block for entry cid, the second one at block
      second of the volume. */
  ghost predicate TwoWrites(v0: Disk, mid: Disk, v1: Disk, vol: Volume, first: nat, second: nat, fat: seq<nat>,
                            cid: nat) {
    && (cid / 128 + 1) * 128 <= |fat|
    && Overwrites(v0, mid, vol, (first + cid / 128) * BSIZE, TableBlock(fat, cid / 128))
    && Overwrites(mid, v1, vol, (second + cid / 128) * BSIZE, TableBlock(fat, cid / 128))
  }

  /** With the second table right behind the first and written there, both
      copies follow every change of an entry. */
  lemma BothFollow(v0: Disk, mid: Disk, v1: Disk, vol: Volume, fs: nat, fl: nat, fat: seq<nat>, cid: nat, value: nat)
    requires |fat| == fl * 128 && cid < |fat| && TwoWrites(v0, mid, v1, vol, fs, fs + fl, fat[cid := value], cid)
    requires Mirrored(v0, vol, fs, fat) && Mirrored(v0, vol, fs + fl, fat)
    ensures Mirrored(v1, vol, fs, fat[cid := value]) && Mirrored(v1, vol, fs + fl, fat[cid := value])
  {
    hide Mirrored, Overwrites, TableBlock;
    FirstFollows(v0, mid, v1, vol, fs, fl, fat, cid, value);
    BlockMissed(v0, mid, vol, fs + fl, fl, fat, fat[cid := value], fs, cid / 128);
    CopyUpdated(mid, v1, vol, fs + fl, fat, cid, value);
  }

  lemma FirstFollows(v0: Disk, mid: Disk, v1: Disk, vol: Volume, fs: nat, fl: nat, fat: seq<nat>, cid: nat, value: nat)
    requires |fat| == fl * 128 && cid < |fat| && TwoWrites(v0, mid, v1, vol, fs, fs + fl, fat[cid := value], cid)
    requires Mirrored(v0, vol, fs, fat)
    ensures Mirrored(v1, vol, fs, fat[cid := value])
  {
    hide Mirrored, Overwrites, TableBlock;
    CopyUpdated(v0, mid, vol, fs, fat, cid, value);
    BlockMissed(mid, v1, vol, fs, fl, fat[cid := value], fat[cid := value], fs + fl, cid / 128);
  }

  lemma BlockMissed(v0: Disk, v1: Disk, vol: Volume, base: nat, fl: nat, fat: seq<nat>, fat': seq<nat>, other: nat,
                    k: nat)
    requires Mirrored(v0, vol, base, fat) && |fat| == |fat'| == fl * 128 && k < fl
    requires other + fl <= base || base + fl <= other
    requires Overwrites(v0, v1, vol, (other + k) * BSIZE, TableBlock(fat', k))
    ensures Mirrored(v1, vol, base, fat)
  {
    CopyKept(v0, v1, vol, base, fat, (other + k) * BSIZE, TableBlock(fat', k));
  }

  lemma SecondMissed(v0: Disk, mid: Disk, v1: Disk, vol: Volume, fs: nat, fl: nat, fat: seq<nat>, cid: nat, value: nat)
    requires |fat| == fl * 128 && cid < |fat| && fs != fl && fat[cid] < WORD32 && value < WORD32 && value != fat[cid]
    requires TwoWrites(v0, mid, v1, vol, fs, 2 * fs, fat[cid := value], cid) && Mirrored(v0, vol, fs + fl, fat)
    ensures !Mirrored(v1, vol, fs + fl, fat[cid := value])
  {
    EntrySkipped(v0, mid, v1, vol, fs, fl, fat[cid := value], cid);
    CopyStale(v0, v1, vol, fs + fl, fat, cid, value);
  }

  lemma EntrySkipped(v0: Disk, mid: Disk, v1: Disk, vol: Volume, fs: nat, fl: nat, fat: seq<nat>, cid: nat)
    requires |fat| == fl * 128 && cid < |fat| && fs != fl && TwoWrites(v0, mid, v1, vol, fs, 2 * fs, fat, cid)
    requires (fs + fl) * BSIZE + 4 * |fat| <= |vol.blocks| * BSIZE
    ensures SameEntry(v0, v1, vol, fs + fl, cid)
  {
    var k, data, a := cid / 128, TableBlock(fat, cid / 128), (fs + fl) * BSIZE;
    assert k < fl && k * BSIZE <= 4 * cid && 4 * cid + 4 <= k * BSIZE + BSIZE;
    forall x: nat | a + 4 * cid <= x < a + 4 * cid + 4
      ensures ByteAt(v1, vol, x) == ByteAt(v0, vol, x)
    {
      Elsewhere(v0, mid, v1, vol, fs, fl, k, data, x - a);
    }
  }

  /** `fresh_fat` puts the second write fat_offset behind the first one: both
      copies follow a changed entry exactly when the tables are as long as
      the area before them, so that fat_offset equals the distance from the first
      table to the second. */
  lemma BothCopiesIff(v0: Disk, mid: Disk, v1: Disk, vol: Volume, fs: nat, fl: nat, fat: seq<nat>, cid: nat, value: nat)
    requires |fat| == fl * 128 && cid < |fat| && fat[cid] < WORD32 && value < WORD32 && value != fat[cid]
    requires Mirrored(v0, vol, fs, fat) && Mirrored(v0, vol, fs + fl, fat)
    requires TwoWrites(v0, mid, v1, vol, fs, 2 * fs, fat[cid := value], cid)
    ensures Mirrored(v1, vol, fs, fat[cid := value]) && Mirrored(v1, vol, fs + fl, fat[cid := value]) <==> fs == fl
  {
    if fs == fl {
      BothFollow(v0, mid, v1, vol, fs, fl, fat, cid, value);
    } else {
      SecondMissed(v0, mid, v1, vol, fs, fl, fat, cid, value);
    }
  }

  lemma Elsewhere(v0: Disk, mid: Disk, v1: Disk, vol: Volume, fs: nat, fl: nat, k: nat, data: seq<Byte>, x: nat)
    requires fs != fl && k < fl && |data| == BSIZE && k * BSIZE <= x < k * BSIZE + BSIZE
    requires (fs + fl) * BSIZE + x < |vol.blocks| * BSIZE
    requires Overwrites(v0, mid, vol, (fs + k) * BSIZE, data)
    requires Overwrites(mid, v1, vol, (2 * fs + k) * BSIZE, data)
    ensures ByteAt(v1, vol, (fs + fl) * BSIZE + x) == ByteAt(v0, vol, (fs + fl) * BSIZE + x)
  {
    var a := (fs + fl) * BSIZE + x;
    assert ByteAt(mid, vol, a) == ByteAt(v0, vol, a);
    assert ByteAt(v1, vol, a) == ByteAt(mid, vol, a);
  }

  /** Storing a block over block m of an up-to-date copy leaves it up to date
      exactly when it is that block of the table. */
  lemma BlockReplaced(v0: Disk, v1: Disk, vol: Volume, base: nat, fat: seq<nat>, m: nat, data: seq<Byte>)
    requires Mirrored(v0, vol, base, fat) && (m + 1) * 128 <= |fat| && |data| == BSIZE
    requires Overwrites(v0, v1, vol, (base + m) * BSIZE, data)
    ensures Mirrored(v1, vol, base, fat) <==> data == TableBlock(fat, m)
  {
    forall x: nat | x < 4 * |fat|
      ensures ByteHeld(v1, vol, base, fat, x)
              <==> m * BSIZE <= x < m * BSIZE + BSIZE ==> data[x - m * BSIZE] == TableBlock(fat, m)[x - m * BSIZE]
    {
      assert ByteHeld(v0, vol, base, fat, x);
      if m * BSIZE <= x < m * BSIZE + BSIZE { TableByte(fat, m, x - m * BSIZE); }
    }
    if Mirrored(v1, vol, base, fat) {
      forall y: nat | y < BSIZE
        ensures data[y] == TableBlock(fat, m)[y]
      {
        assert ByteHeld(v1, vol, base, fat, m * BSIZE + y);
      }
    }
  }

  /** The copy that the next mount loads follows a changed entry exactly when the
      second write falls behind it, or puts the bytes that belong there: always
      so without reserved blocks, when the write is simply repeated. */
  lemma FirstCopyIff(v0: Disk, mid: Disk, v1: Disk, vol: Volume, fs: nat, fl: nat, fat: seq<nat>, cid: nat, value: nat)
    requires |fat| == fl * 128 && cid < |fat| && Mirrored(v0, vol, fs, fat)
    requires TwoWrites(v0, mid, v1, vol, fs, 2 * fs, fat[cid := value], cid)
    ensures var fat', k := fat[cid := value], cid / 128;
            Mirrored(v1, vol, fs, fat')
            <==> fs + k >= fl || TableBlock(fat', fs + k) == TableBlock(fat', k)
  {
    hide Mirrored, Overwrites, TableBlock;
    var fat', k := fat[cid := value], cid / 128;
    CopyUpdated(v0, mid, vol, fs, fat, cid, value);
    if fs + k >= fl {
      CopyKept(mid, v1, vol, fs, fat', (2 * fs + k) * BSIZE, TableBlock(fat', k));
    } else {
      BlockReplaced(mid, v1, vol, fs, fat', fs + k, TableBlock(fat', k));
    }
  }

  /** One reserved block, tables of two: the second write replaces the other
      block of the first table. */
  lemma FirstCopyDamaged(v0: Disk, mid: Disk, v1: Disk, vol: Volume, fat: seq<nat>)
    requires |fat| == 256 && fat[130] == 0 && Mirrored(v0, vol, 1, fat)
    requires TwoWrites(v0, mid, v1, vol, 1, 2, fat[2 := END_CID], 2)
    ensures !Mirrored(v1, vol, 1, fat[2 := END_CID])
  {
    var fat' := fat[2 := END_CID];
    FirstCopyIff(v0, mid, v1, vol, 1, 2, fat, 2, END_CID);
    TableByte(fat', 0, 8);
    TableByte(fat', 1, 8);
    assert TableBlock(fat', 0)[8] != TableBlock(fat', 1)[8];
  }

  /** A volume with one reserved block and a table of two blocks: after changing
      an entry the second table no longer matches, whatever was on the disk. */
  lemma SecondCopyMissed(v0: Disk, mid: Disk, v1: Disk, vol: Volume, fat: seq<nat>)
    requires |fat| == 256 && fat[2] == 0
    requires Mirrored(v0, vol, 1, fat) && Mirrored(v0, vol, 3, fat)
    requires TwoWrites(v0, mid, v1, vol, 1, 2, fat[2 := END_CID], 2)
    ensures !(Mirrored(v1, vol, 1, fat[2 := END_CID]) && Mirrored(v1, vol, 3, fat[2 := END_CID]))
  {
    BothCopiesIff(v0, mid, v1, vol, 1, 2, fat, 2, END_CID);
  }

  /* ---- the reading side ---- */

  /** The word a little-endian machine loads from four bytes. */
  function Word(b0: nat, b1: nat, b2: nat, b3: nat): nat { b0 + 0x100 * b1 + 0x1_0000 * b2 + 0x100_0000 * b3 }

  lemma WordIff(b0: Byte, b1: Byte, b2: Byte, b3: Byte, w: nat)
    requires w < WORD32
    ensures Word(b0, b1, b2, b3) == w <==> [b0, b1, b2, b3] == WordBytes(w)
  {
    Digits(w);
    var x, y, z: nat := b0, b1, b2;
    var hi: nat := y + 0x100 * z + 0x1_0000 * b3;
    if x + 0x100 * hi == w {
      assert w % 0x100 == x && w / 0x100 == hi;
      HighDigits(w, hi, b1, b2, b3);
    }
  }

  lemma HighDigits(w: nat, hi: nat, b1: Byte, b2: Byte, b3: Byte)
    requires w / 0x100 == hi && (var y: nat, z: nat := b1, b2; hi == y + 0x100 * z + 0x1_0000 * b3)
    ensures (w / 0x100) % 256 == b1 && (w / 0x1_0000) % 256 == b2 && (w / 0x100_0000) % 256 == b3
  {
    var z: nat := b2;
    var top: nat := z + 0x100 * b3;
    assert hi % 0x100 == b1 && hi / 0x100 == top;
    assert top % 0x100 == b2 && top / 0x100 == b3;
    assert w / 0x1_0000 == hi / 0x100 && w / 0x100_0000 == top / 0x100;
  }

  function WordAt(bytes: seq<Byte>, a: nat): nat
    requires a + 4 <= |bytes|
  {
    Word(bytes[a], bytes[a + 1], bytes[a + 2], bytes[a + 3])
  }

  /** Bytes taken for an array of words. */
  function Words(bytes: seq<Byte>): (r: seq<nat>) {
    seq(|bytes| / 4, i requires 0 <= i < |bytes| / 4 => WordAt(bytes, 4 * i))
  }

  /** The word at address a of the volume, and n of them from block base on. */
  ghost function WordOn(view: Disk, vol: Volume, a: nat): nat
    requires OnDisk(vol, view) && a + 4 <= |vol.blocks| * BSIZE
  {
    Word(ByteAt(view, vol, a), ByteAt(view, vol, a + 1), ByteAt(view, vol, a + 2), ByteAt(view, vol, a + 3))
  }

  ghost function TableOn(view: Disk, vol: Volume, base: nat, n: nat): seq<nat>
    requires OnDisk(vol, view) && base * BSIZE + 4 * n <= |vol.blocks| * BSIZE
  {
    seq(n, i requires 0 <= i < n => WordOn(view, vol, base * BSIZE + 4 * i))
  }

  lemma SliceWords(view: Disk, vol: Volume, base: nat, n: nat)
    requires OnDisk(vol, view) && base * BSIZE + 4 * n <= |vol.blocks| * BSIZE
    ensures Words(Slice(view, vol, base * BSIZE, 4 * n)) == TableOn(view, vol, base, n)
  {
    var bytes, a := Slice(view, vol, base * BSIZE, 4 * n), base * BSIZE;
    forall i | 0 <= i < n
      ensures Words(bytes)[i] == TableOn(view, vol, base, n)[i]
    {
      assert bytes[4 * i] == ByteAt(view, vol, a + 4 * i) && bytes[4 * i + 1] == ByteAt(view, vol, a + 4 * i + 1);
      assert bytes[4 * i + 2] == ByteAt(view, vol, a + 4 * i + 2);
      assert bytes[4 * i + 3] == ByteAt(view, vol, a + 4 * i + 3);
    }
  }

  /** Byte j of word w lies at a + j. */
  predicate ByteIs(view: Disk, vol: Volume, a: nat, j: nat, w: nat)
    requires j < 4 && a + j < |vol.blocks| * BSIZE && (vol.dev, vol.blocks[(a + j) / BSIZE]) in view
  {
    ByteAt(view, vol, a + j) == WordBytes(w)[j]
  }

  lemma WordOfBytes(view: Disk, vol: Volume, a: nat, w: nat)
    requires OnDisk(vol, view) && a + 4 <= |vol.blocks| * BSIZE && w < WORD32
    ensures WordOn(view, vol, a) == w
       <==> ByteIs(view, vol, a, 0, w) && ByteIs(view, vol, a, 1, w) && ByteIs(view, vol, a, 2, w)
            && ByteIs(view, vol, a, 3, w)
  {
    hide WordBytes;
    var x, y, z, u := ByteAt(view, vol, a), ByteAt(view, vol, a + 1), ByteAt(view, vol, a + 2),
                      ByteAt(view, vol, a + 3);
    WordIff(x, y, z, u, w);
    assert [x, y, z, u] == WordBytes(w)
      <==> ByteIs(view, vol, a, 0, w) && ByteIs(view, vol, a, 1, w) && ByteIs(view, vol, a, 2, w)
           && ByteIs(view, vol, a, 3, w);
  }

  ghost predicate AllWords(fat: seq<nat>) { forall i | 0 <= i < |fat| :: fat[i] < WORD32 }

  /** The copy holds entry i of the table. */
  predicate EntryHeld(view: Disk, vol: Volume, base: nat, fat: seq<nat>, i: nat)
    requires i < |fat| && OnDisk(vol, view) && base * BSIZE + 4 * |fat| <= |vol.blocks| * BSIZE
  {
    && ByteHeld(view, vol, base, fat, 4 * i) && ByteHeld(view, vol, base, fat, 4 * i + 1)
    && ByteHeld(view, vol, base, fat, 4 * i + 2) && ByteHeld(view, vol, base, fat, 4 * i + 3)
  }

  lemma EntryByte(view: Disk, vol: Volume, base: nat, fat: seq<nat>, i: nat, j: nat)
    requires OnDisk(vol, view) && base * BSIZE + 4 * |fat| <= |vol.blocks| * BSIZE && i < |fat| && j < 4
    ensures ByteHeld(view, vol, base, fat, 4 * i + j) <==> ByteIs(view, vol, base * BSIZE + 4 * i, j, fat[i])
  {
    assert (4 * i + j) / 4 == i && (4 * i + j) % 4 == j && base * BSIZE + (4 * i + j) == base * BSIZE + 4 * i + j;
  }

  lemma EntryLoaded(view: Disk, vol: Volume, base: nat, fat: seq<nat>, i: nat)
    requires OnDisk(vol, view) && base * BSIZE + 4 * |fat| <= |vol.blocks| * BSIZE && i < |fat| && fat[i] < WORD32
    ensures WordOn(view, vol, base * BSIZE + 4 * i) == fat[i] <==> EntryHeld(view, vol, base, fat, i)
  {
    hide ByteIs, ByteHeld, WordOn;
    WordOfBytes(view, vol, base * BSIZE + 4 * i, fat[i]);
    EntryByte(view, vol, base, fat, i, 0);
    EntryByte(view, vol, base, fat, i, 1);
    EntryByte(view, vol, base, fat, i, 2);
    EntryByte(view, vol, base, fat, i, 3);
  }

  /** A copy loaded at mount time is the table in memory exactly when the copy is
      up to date. */
  lemma LoadedIff(view: Disk, vol: Volume, base: nat, fat: seq<nat>)
    requires OnDisk(vol, view) && base * BSIZE + 4 * |fat| <= |vol.blocks| * BSIZE && AllWords(fat)
    ensures TableOn(view, vol, base, |fat|) == fat <==> Mirrored(view, vol, base, fat)
  {
    hide WordOn, ByteHeld;
    var t := TableOn(view, vol, base, |fat|);
    forall i: nat | i < |fat|
      ensures t[i] == fat[i] <==> EntryHeld(view, vol, base, fat, i)
    {
      EntryLoaded(view, vol, base, fat, i);
    }
    if t == fat {
      forall x: nat | x < 4 * |fat|
        ensures ByteHeld(view, vol, base, fat, x)
      {
        assert t[x / 4] == fat[x / 4] && EntryHeld(view, vol, base, fat, x / 4);
        assert x % 4 in {0, 1, 2, 3} && x == 4 * (x / 4) + x % 4;
      }
    }
  }

  lemma BlockWords(v0: Disk, v1: Disk, vol: Volume, base: nat, fat: seq<nat>, cid: nat)
    requires (cid / 128 + 1) * 128 <= |fat| && cid < |fat| && fat[cid] < WORD32
    requires Overwrites(v0, v1, vol, (base + cid / 128) * BSIZE, TableBlock(fat, cid / 128))
    requires base * BSIZE + 4 * cid + 4 <= |vol.blocks| * BSIZE
    ensures WordOn(v1, vol, base * BSIZE + 4 * cid) == fat[cid]
  {
    BlockByte(v0, v1, vol, base, fat, cid, 0);
    BlockByte(v0, v1, vol, base, fat, cid, 1);
    BlockByte(v0, v1, vol, base, fat, cid, 2);
    BlockByte(v0, v1, vol, base, fat, cid, 3);
    WordOfBytes(v1, vol, base * BSIZE + 4 * cid, fat[cid]);
  }

  lemma BlockByte(v0: Disk, v1: Disk, vol: Volume, base: nat, fat: seq<nat>, cid: nat, j: nat)
    requires (cid / 128 + 1) * 128 <= |fat| && cid < |fat| && j < 4
    requires Overwrites(v0, v1, vol, (base + cid / 128) * BSIZE, TableBlock(fat, cid / 128))
    requires base * BSIZE + 4 * cid + 4 <= |vol.blocks| * BSIZE
    ensures ByteIs(v1, vol, base * BSIZE + 4 * cid, j, fat[cid])
  {
    hide WordBytes, TableBlock;
    var k := cid / 128;
    var y := 4 * cid + j - k * BSIZE;
    assert 0 <= y < BSIZE && (k * BSIZE + y) / 4 == cid && (k * BSIZE + y) % 4 == j;
    TableByte(fat, k, y);
    assert base * BSIZE + 4 * cid + j == (base + k) * BSIZE + y;
  }

  /** After the two writes for entry cid the word of the entry in the first table is
      the value of the entry, wherever the second write went. */
  lemma EntryOnDisk(v0: Disk, mid: Disk, v1: Disk, vol: Volume, fs: nat, fat: seq<nat>, cid: nat)
    requires cid < |fat| && fat[cid] < WORD32 && TwoWrites(v0, mid, v1, vol, fs, 2 * fs, fat, cid)
    requires fs * BSIZE + 4 * cid + 4 <= |vol.blocks| * BSIZE
    ensures WordOn(v1, vol, fs * BSIZE + 4 * cid) == fat[cid]
  {
    hide TableBlock;
    var a := fs * BSIZE + 4 * cid;
    BlockWords(v0, mid, vol, fs, fat, cid);
    if fs == 0 {
      BlockWords(mid, v1, vol, fs, fat, cid);
    } else {
      assert a + 4 <= (2 * fs + cid / 128) * BSIZE;
      assert ByteAt(v1, vol, a) == ByteAt(mid, vol, a) && ByteAt(v1, vol, a + 1) == ByteAt(mid, vol, a + 1);
      assert ByteAt(v1, vol, a + 2) == ByteAt(mid, vol, a + 2) && ByteAt(v1, vol, a + 3) == ByteAt(mid, vol, a + 3);
    }
  }

  /** What the next mount loads after a changed entry is the table in memory exactly
      when the second write fell behind the first table, or on words that are the
      same. */
  lemma NextMountIff(v0: Disk, mid: Disk, v1: Disk, vol: Volume, fs: nat, fl: nat, fat: seq<nat>, cid: nat, value: nat)
    requires |fat| == fl * 128 && cid < |fat| && Mirrored(v0, vol, fs, fat) && AllWords(fat) && value < WORD32
    requires TwoWrites(v0, mid, v1, vol, fs, 2 * fs, fat[cid := value], cid)
    ensures OnDisk(vol, v1) && fs * BSIZE + 4 * |fat| <= |vol.blocks| * BSIZE
    ensures var fat', k := fat[cid := value], cid / 128;
            TableOn(v1, vol, fs, |fat'|) == fat'
            <==> fs + k >= fl || fat'[(fs + k) * 128..(fs + k + 1) * 128] == fat'[k * 128..(k + 1) * 128]
  {
    var fat', k := fat[cid := value], cid / 128;
    assert OnDisk(vol, v1) && fs * BSIZE + 4 * |fat| <= |vol.blocks| * BSIZE;
    hide Mirrored, TableOn, Overwrites, TableBlock;
    FirstCopyIff(v0, mid, v1, vol, fs, fl, fat, cid, value);
    LoadedIff(v1, vol, fs, fat');
    if fs + k < fl { SameBlocksIff(fat', fs + k, k); }
  }

  lemma {:induction false} EncodeInjective(a: seq<nat>, b: seq<nat>)
    requires |a| == |b| && AllWords(a) && AllWords(b) && Encode(a) == Encode(b)
    ensures a == b
  {
    forall i: nat | i < |a|
      ensures a[i] == b[i]
    {
      if a[i] != b[i] {
        WordBytesInjective(a[i], b[i]);
        var j :| 0 <= j < 4 && WordBytes(a[i])[j] != WordBytes(b[i])[j];
        EncodeAt(a, 4 * i + j);
        EncodeAt(b, 4 * i + j);
        assert false;
      }
    }
  }

  lemma SameBlocksIff(fat: seq<nat>, m: nat, k: nat)
    requires (m + 1) * 128 <= |fat| && (k + 1) * 128 <= |fat| && AllWords(fat)
    ensures TableBlock(fat, m) == TableBlock(fat, k)
       <==> fat[m * 128..(m + 1) * 128] == fat[k * 128..(k + 1) * 128]
  {
    hide Encode;
    var a, b := fat[m * 128..(m + 1) * 128], fat[k * 128..(k + 1) * 128];
    if Encode(a) == Encode(b) { EncodeInjective(a, b); }
  }
}
