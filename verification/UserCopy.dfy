/** `copy_to_va` and `copy_from_va` of `kernel/vmm.c`: page-crossing copies,
    proved against copies that translate every byte on its own. */
module UserCopy {
  import opened Pages
  import opened Pte
  import opened PageMap
  import PT = PageTable

  type Frames = map<nat, seq<nat>>   // frame address -> its 4096 bytes

  /** va2pa of the page holding a finds a frame. */
  predicate Reaches(m: Map, a: nat) {
    Floor(a) <= MAX_VA && Vpn(a) in m && PteToPa(m[Vpn(a)]) != 0
  }

  function FrameOf(m: Map, a: nat): nat
    requires Reaches(m, a)
  {
    PteToPa(m[Vpn(a)])
  }

  /** Every page of the range that is mapped is backed by ordinary memory. */
  ghost predicate Backed(m: Map, f: Frames, va: nat, len: nat) {
    forall a: nat {:trigger Reaches(m, a)} | va <= a < va + len && Reaches(m, a) ::
      FrameOf(m, a) in f && |f[FrameOf(m, a)]| == PG_SIZE
  }

  function Patch(f: Frames, p: nat, o: nat, bytes: seq<nat>): Frames
    requires p in f && o + |bytes| <= |f[p]|
  {
    f[p := f[p][..o] + bytes + f[p][o + |bytes|..]]
  }

  /** Store the bytes one at a time; false at the first that has no frame. */
  ghost function StoreBytes(m: Map, f: Frames, va: nat, bytes: seq<nat>): (Frames, bool)
    requires Backed(m, f, va, |bytes|)
    decreases |bytes|
  {
    if bytes == [] then (f, true)
    else if !Reaches(m, va) then (f, false)
    else StoreBytes(m, Patch(f, FrameOf(m, va), va % PG_SIZE, [bytes[0]]), va + 1, bytes[1..])
  }

  ghost function LoadBytes(m: Map, f: Frames, va: nat, len: nat): (seq<nat>, bool)
    requires Backed(m, f, va, len)
    decreases len
  {
    if len == 0 then ([], true)
    else if !Reaches(m, va) then ([], false)
    else var (rest, ok) := LoadBytes(m, f, va + 1, len - 1);
         ([f[FrameOf(m, va)][va % PG_SIZE]] + rest, ok)
  }

  /** The value an `int` return makes of a 64-bit length. */
  function ToInt(len: nat): int {
    var w := len % 0x1_0000_0000;
    if w >= 0x8000_0000 then w - 0x1_0000_0000 else w
  }

  /** The one number an `int` can hold that differs from the length by a multiple of
      2^32: the length itself below 2^31. */
  lemma IntOfLength(len: nat)
    ensures -0x8000_0000 <= ToInt(len) < 0x8000_0000 && (len - ToInt(len)) % 0x1_0000_0000 == 0
    ensures len < 0x8000_0000 ==> ToInt(len) == len
  {
    var q, w := len / 0x1_0000_0000, len % 0x1_0000_0000;
    assert len == 0x1_0000_0000 * q + w;
  }

  lemma PageNeighbours(a: nat, n: nat)
    requires a % PG_SIZE + n < PG_SIZE
    ensures Floor(a + n) == Floor(a) && Vpn(a + n) == Vpn(a) && (a + n) % PG_SIZE == a % PG_SIZE + n
  {
    var q, r := a / 4096, a % 4096;
    assert a + n == 4096 * q + (r + n);
    assert (a + n) / 4096 == q && (a + n) % 4096 == r + n;
  }

  lemma SameFrame(m: Map, a: nat, n: nat)
    requires a % PG_SIZE + n < PG_SIZE
    ensures Reaches(m, a + n) == Reaches(m, a) && (a + n) % PG_SIZE == a % PG_SIZE + n
    ensures Reaches(m, a) ==> FrameOf(m, a + n) == FrameOf(m, a)
  {
    PageNeighbours(a, n);
  }

  lemma PatchBacked(m: Map, f: Frames, p: nat, o: nat, b: seq<nat>, va: nat, len: nat, va': nat, len': nat)
    requires Backed(m, f, va, len) && p in f && o + |b| <= |f[p]|
    requires va <= va' && va' + len' <= va + len
    ensures Backed(m, Patch(f, p, o, b), va', len')
  {
  }

  lemma PatchTwice(f: Frames, p: nat, o: nat, a: seq<nat>, b: seq<nat>)
    requires p in f && o + |a| + |b| <= |f[p]|
    ensures Patch(Patch(f, p, o, a), p, o + |a|, b) == Patch(f, p, o, a + b)
  {
    assert Patch(Patch(f, p, o, a), p, o + |a|, b)[p] == Patch(f, p, o, a + b)[p];
  }

  lemma StoreOne(m: Map, f: Frames, va: nat, bytes: seq<nat>)
    requires bytes != [] && Reaches(m, va) && Backed(m, f, va, |bytes|)
    ensures FrameOf(m, va) in f && |f[FrameOf(m, va)]| == PG_SIZE
    ensures var p := FrameOf(m, va);
            var f1 := Patch(f, p, va % PG_SIZE, [bytes[0]]);
            && Backed(m, f1, va + 1, |bytes| - 1) && p in f1 && |f1[p]| == PG_SIZE
            && StoreBytes(m, f, va, bytes) == StoreBytes(m, f1, va + 1, bytes[1..])
  {
    PatchBacked(m, f, FrameOf(m, va), va % PG_SIZE, [bytes[0]], va, |bytes|, va + 1, |bytes| - 1);
  }

  lemma PatchNothing(f: Frames, p: nat, o: nat)
    requires p in f && o <= |f[p]|
    ensures Patch(f, p, o, []) == f
  {
    assert f[p][..o] + [] + f[p][o + 0..] == f[p];
  }

  /** A chunk inside one page, stored at once, is the same as byte by byte. */
  lemma {:induction false} StoreChunk(m: Map, f: Frames, va: nat, bytes: seq<nat>, n: nat)
    requires n <= |bytes| && va % PG_SIZE + n <= PG_SIZE && Reaches(m, va)
    requires Backed(m, f, va, |bytes|) && FrameOf(m, va) in f && |f[FrameOf(m, va)]| == PG_SIZE
    ensures var f' := Patch(f, FrameOf(m, va), va % PG_SIZE, bytes[..n]);
            Backed(m, f', va + n, |bytes| - n)
            && StoreBytes(m, f, va, bytes) == StoreBytes(m, f', va + n, bytes[n..])
    decreases n
  {
    hide Reaches, FrameOf, StoreBytes, Patch, Backed;
    var p, o := FrameOf(m, va), va % PG_SIZE;
    if n == 0 {
      PatchNothing(f, p, o);
      assert bytes[..0] == [] && bytes[0..] == bytes;
    } else {
      var f1, rest := Patch(f, p, o, [bytes[0]]), bytes[1..];
      StoreOne(m, f, va, bytes);
      if n == 1 {
        assert bytes[..1] == [bytes[0]];
      } else {
        SameFrame(m, va, 1);
        StoreChunk(m, f1, va + 1, rest, n - 1);
        assert rest[n - 1..] == bytes[n..];
        PatchTwice(f, p, o, [bytes[0]], rest[..n - 1]);
        assert [bytes[0]] + rest[..n - 1] == bytes[..n];
      }
    }
  }

  lemma {:induction false} LoadChunk(m: Map, f: Frames, va: nat, len: nat, n: nat)
    requires n <= len && va % PG_SIZE + n <= PG_SIZE && Reaches(m, va)
    requires Backed(m, f, va, len) && FrameOf(m, va) in f && |f[FrameOf(m, va)]| == PG_SIZE
    ensures Backed(m, f, va + n, len - n)
    ensures var (rest, ok) := LoadBytes(m, f, va + n, len - n);
            var o := va % PG_SIZE;
            LoadBytes(m, f, va, len) == (f[FrameOf(m, va)][o..o + n] + rest, ok)
    decreases n
  {
    hide Reaches, FrameOf;
    var p, o := FrameOf(m, va), va % PG_SIZE;
    if n == 0 {
      assert f[p][o..o] == [];
      assert LoadBytes(m, f, va, len).0 == [] + LoadBytes(m, f, va, len).0;
    } else if n == 1 {
      assert f[p][o..o + 1] == [f[p][o]];
    } else {
      SameFrame(m, va, 1);
      LoadChunk(m, f, va + 1, len - 1, n - 1);
      var (rest, ok) := LoadBytes(m, f, va + n, len - n);
      assert f[p][o..o + n] == [f[p][o]] + f[p][o + 1..o + n];
      assert [f[p][o]] + (f[p][o + 1..o + n] + rest) == f[p][o..o + n] + rest;
    }
  }

  ghost predicate StoreLeads(m: Map, f: Frames, va: nat, rest: seq<nat>, goal: (Frames, bool)) {
    Backed(m, f, va, |rest|) && StoreBytes(m, f, va, rest) == goal
  }

  lemma StoreRound(m: Map, f: Frames, va: nat, rest: seq<nat>, n: nat, goal: (Frames, bool))
    requires StoreLeads(m, f, va, rest, goal) && Reaches(m, va)
    requires 0 < n <= |rest| && va % PG_SIZE + n <= PG_SIZE && (n < |rest| ==> va % PG_SIZE + n == PG_SIZE)
    ensures FrameOf(m, va) in f && |f[FrameOf(m, va)]| == PG_SIZE
    ensures StoreLeads(m, Patch(f, FrameOf(m, va), va - Floor(va), rest[..n]), Floor(va) + PG_SIZE, rest[n..], goal)
  {
    StoreChunk(m, f, va, rest, n);
  }

  class AddressSpace {
    const table: PT.PageTable
    var frames: Frames

    constructor (t: PT.PageTable, f: Frames)
      ensures table == t && frames == f
    {
      table := t;
      frames := f;
    }

    /** `va2pa` of a page start, 0 when there is no frame. */
    method PageFrame(va0: nat) returns (pa: nat)
      requires table.Valid() && va0 % PG_SIZE == 0
      modifies table`mem, table`pool, table`path
      ensures table.Valid()
      ensures pa == if Reaches(table.pages, va0) then FrameOf(table.pages, va0) else 0
    {
      pa := table.Va2Pa(va0);
    }

    /** `copy_to_va`. */
    method CopyToVa(va0: nat, src: seq<nat>) returns (r: int)
      requires table.Valid() && Backed(table.pages, frames, va0, |src|)
      modifies this`frames, table`mem, table`pool, table`path
      ensures table.Valid() && table.pages == old(table.pages)
      ensures var (f, ok) := StoreBytes(table.pages, old(frames), va0, src);
              frames == f && r == if ok then ToInt(|src|) else -1
    {
      ghost var m := table.pages;
      ghost var goal := StoreBytes(m, frames, va0, src);
      var va: nat, rest, len: nat := va0, src, |src|;
      while len > 0
        invariant table.Valid() && table.pages == m && len == |rest|
        invariant StoreLeads(m, frames, va, rest, goal)
      {
        var start := Floor(va);
        var pa := PageFrame(start);
        FloorReaches(m, va);
        if pa == 0 {
          return -1;
        }
        var n := PG_SIZE - (va - start);
        if n > len {
          n := len;
        }
        assert FrameOf(m, va) == pa && Reaches(m, va);
        StoreRound(m, frames, va, rest, n, goal);
        frames := Patch(frames, pa, va - start, rest[..n]);
        len := len - n;
        rest := rest[n..];
        va := start + PG_SIZE;
      }
      return ToInt(|src|);
    }

    /** `copy_from_va`. */
    method CopyFromVa(va0: nat, count: nat) returns (dst: seq<nat>, r: int)
      requires table.Valid() && Backed(table.pages, frames, va0, count)
      modifies table`mem, table`pool, table`path
      ensures table.Valid() && table.pages == old(table.pages)
      ensures var (bytes, ok) := LoadBytes(table.pages, frames, va0, count);
              dst == bytes && r == if ok then ToInt(count) else -1
    {
      ghost var m := table.pages;
      ghost var goal := LoadBytes(m, frames, va0, count);
      var va: nat, len: nat := va0, count;
      dst := [];
      assert [] + goal.0 == goal.0;
      while len > 0
        invariant table.Valid() && table.pages == m
        invariant Backed(m, frames, va, len)
        invariant var (rest, ok) := LoadBytes(m, frames, va, len); (dst + rest, ok) == goal
      {
        var start := Floor(va);
        var pa := PageFrame(start);
        FloorReaches(m, va);
        if pa == 0 {
          return dst, -1;
        }
        var n := PG_SIZE - (va - start);
        if n > len {
          n := len;
        }
        assert Reaches(m, va);
        LoadChunk(m, frames, va, len, n);
        ghost var rest := LoadBytes(m, frames, va + n, len - n).0;
        var chunk := frames[pa][va - start..va - start + n];
        assert dst + (chunk + rest) == (dst + chunk) + rest;
        dst := dst + chunk;
        len := len - n;
        va := start + PG_SIZE;
      }
      assert dst + [] == dst;
      return dst, ToInt(count);
    }
  }

  lemma FloorReaches(m: Map, va: nat)
    ensures Floor(va) % PG_SIZE == 0 && Floor(va) <= va
    ensures Reaches(m, Floor(va)) == Reaches(m, va)
    ensures Reaches(m, va) ==> FrameOf(m, Floor(va)) == FrameOf(m, va)
  {
    SameFrame(m, Floor(va), va % PG_SIZE);
  }

  /* ---- what the copies promise ---- */

  ghost predicate AllReach(m: Map, va: nat, len: nat) {
    forall a: nat {:trigger Reaches(m, a)} | va <= a < va + len :: Reaches(m, a)
  }

  lemma {:induction false} StoreSucceedsIff(m: Map, f: Frames, va: nat, bytes: seq<nat>)
    requires Backed(m, f, va, |bytes|)
    ensures StoreBytes(m, f, va, bytes).1 <==> AllReach(m, va, |bytes|)
    decreases |bytes|
  {
    if bytes != [] && Reaches(m, va) {
      var f1 := Patch(f, FrameOf(m, va), va % PG_SIZE, [bytes[0]]);
      PatchBacked(m, f, FrameOf(m, va), va % PG_SIZE, [bytes[0]], va, |bytes|, va + 1, |bytes| - 1);
      StoreSucceedsIff(m, f1, va + 1, bytes[1..]);
    }
  }

  lemma {:induction false} LoadSucceedsIff(m: Map, f: Frames, va: nat, len: nat)
    requires Backed(m, f, va, len)
    ensures LoadBytes(m, f, va, len).1 <==> AllReach(m, va, len)
    decreases len
  {
    if len > 0 && Reaches(m, va) { LoadSucceedsIff(m, f, va + 1, len - 1); }
  }

  /** The copies answer -1 exactly when the range touches a page without a
      frame, or when the 64-bit length reads as -1 in an `int`. */
  lemma CopyFailsIff(m: Map, f: Frames, va: nat, bytes: seq<nat>)
    requires Backed(m, f, va, |bytes|)
    ensures var (stored, loaded) := (StoreBytes(m, f, va, bytes).1, LoadBytes(m, f, va, |bytes|).1);
            var bad := |bytes| % 0x1_0000_0000 == 0xffff_ffff
                       || exists a: nat :: va <= a < va + |bytes| && !Reaches(m, a);
            && ((if stored then ToInt(|bytes|) else -1) == -1 <==> bad)
            && ((if loaded then ToInt(|bytes|) else -1) == -1 <==> bad)
  {
    StoreSucceedsIff(m, f, va, bytes);
    LoadSucceedsIff(m, f, va, |bytes|);
  }

  /** A mapped range of 2^32 - 1 bytes is copied whole, and -1 comes back; no
      system call passes such a length. */
  lemma LongCopyReportsFailure(m: Map, f: Frames, va: nat, bytes: seq<nat>)
    requires Backed(m, f, va, |bytes|) && |bytes| == 0xffff_ffff && AllReach(m, va, |bytes|)
    ensures StoreBytes(m, f, va, bytes).1 && LoadBytes(m, f, va, |bytes|).1 && ToInt(|bytes|) == -1
  {
    hide StoreBytes, LoadBytes, Backed, AllReach;
    StoreSucceedsIff(m, f, va, bytes);
    LoadSucceedsIff(m, f, va, |bytes|);
  }

  /** Different pages of the range have different frames. */
  ghost predicate DistinctFrames(m: Map, va: nat, len: nat) {
    forall a: nat, b: nat {:trigger Reaches(m, a), Reaches(m, b)}
      | va <= a < va + len && va <= b < va + len && Reaches(m, a) && Reaches(m, b) ::
        FrameOf(m, a) == FrameOf(m, b) ==> Floor(a) == Floor(b)
  }

  /** A byte that the range does not hit stays as it was. */
  lemma {:induction false} StoreKeeps(m: Map, f: Frames, va: nat, bytes: seq<nat>, p: nat, o: nat)
    requires Backed(m, f, va, |bytes|) && p in f && |f[p]| == PG_SIZE && o < PG_SIZE
    requires forall a: nat {:trigger Reaches(m, a)} | va <= a < va + |bytes| && Reaches(m, a) ::
               FrameOf(m, a) != p || a % PG_SIZE != o
    ensures var f' := StoreBytes(m, f, va, bytes).0;
            p in f' && |f'[p]| == PG_SIZE && f'[p][o] == f[p][o]
    decreases |bytes|
  {
    if bytes != [] && Reaches(m, va) {
      var q := FrameOf(m, va);
      var f1 := Patch(f, q, va % PG_SIZE, [bytes[0]]);
      PatchBacked(m, f, q, va % PG_SIZE, [bytes[0]], va, |bytes|, va + 1, |bytes| - 1);
      StoreKeeps(m, f1, va + 1, bytes[1..], p, o);
    }
  }

  lemma {:induction false} StoredByte(m: Map, f: Frames, va: nat, bytes: seq<nat>, k: nat)
    requires Backed(m, f, va, |bytes|) && AllReach(m, va, |bytes|) && DistinctFrames(m, va, |bytes|)
    requires k < |bytes|
    ensures var f' := StoreBytes(m, f, va, bytes).0;
            && Reaches(m, va + k) && FrameOf(m, va + k) in f' && |f'[FrameOf(m, va + k)]| == PG_SIZE
            && f'[FrameOf(m, va + k)][(va + k) % PG_SIZE] == bytes[k]
    decreases |bytes|
  {
    assert Reaches(m, va);
    var q := FrameOf(m, va);
    var f1 := Patch(f, q, va % PG_SIZE, [bytes[0]]);
    PatchBacked(m, f, q, va % PG_SIZE, [bytes[0]], va, |bytes|, va + 1, |bytes| - 1);
    if k > 0 {
      assert Reaches(m, va + k);
      StoredByte(m, f1, va + 1, bytes[1..], k - 1);
      assert va + 1 + (k - 1) == va + k;
    } else {
      forall a: nat | va + 1 <= a < va + |bytes| && Reaches(m, a)
        ensures FrameOf(m, a) != q || a % PG_SIZE != va % PG_SIZE
      {
        if Floor(a) == Floor(va) && a % PG_SIZE == va % PG_SIZE { assert false; }
      }
      StoreKeeps(m, f1, va + 1, bytes[1..], q, va % PG_SIZE);
      assert f1[q][va % PG_SIZE] == bytes[0];
    }
  }

  lemma {:induction false} LoadedBytes(m: Map, f: Frames, va: nat, bytes: seq<nat>)
    requires Backed(m, f, va, |bytes|) && AllReach(m, va, |bytes|)
    requires forall a: nat {:trigger Reaches(m, a)} | va <= a < va + |bytes| && Reaches(m, a) ::
               f[FrameOf(m, a)][a % PG_SIZE] == bytes[a - va]
    ensures LoadBytes(m, f, va, |bytes|) == (bytes, true)
    decreases |bytes|
  {
    if bytes != [] {
      var rest := bytes[1..];
      assert Reaches(m, va);
      LoadedBytes(m, f, va + 1, rest);
      assert bytes == [bytes[0]] + rest;
    }
  }

  /** Copying in and back out returns the same bytes, for any length and
      alignment, when every page has a frame of its own. */
  lemma CopyRoundTrip(m: Map, f: Frames, va: nat, bytes: seq<nat>)
    requires Backed(m, f, va, |bytes|) && AllReach(m, va, |bytes|) && DistinctFrames(m, va, |bytes|)
    ensures Backed(m, StoreBytes(m, f, va, bytes).0, va, |bytes|)
    ensures LoadBytes(m, StoreBytes(m, f, va, bytes).0, va, |bytes|) == (bytes, true)
  {
    var f' := StoreBytes(m, f, va, bytes).0;
    forall a: nat | va <= a < va + |bytes| && Reaches(m, a)
      ensures FrameOf(m, a) in f' && |f'[FrameOf(m, a)]| == PG_SIZE
      ensures f'[FrameOf(m, a)][a % PG_SIZE] == bytes[a - va]
    {
      StoredByte(m, f, va, bytes, a - va);
      assert va + (a - va) == a;
    }
    LoadedBytes(m, f', va, bytes);
  }
}
