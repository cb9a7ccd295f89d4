/** `kernel/bio.c`: the write-back buffer cache with its doubly linked LRU list.
    Buffers and list nodes are named by their index in the static array; index
    NBUF is the list head. One call runs at a time and a disk transfer is
    atomic here; CacheRuns lets calls overlap. */
module BlockCache {
  import opened CacheSpec

  /** next and prev thread the nodes of order into a circle through the head. */
  ghost predicate LinkedList(next: seq<nat>, prev: seq<nat>, order: seq<nat>) {
    && |next| == |prev| == NBUF + 1 && |order| == NBUF
    && (forall i | 0 <= i < NBUF :: order[i] < NBUF)
    && (forall i, j | 0 <= i < j < NBUF :: order[i] != order[j])
    && (forall b: nat {:trigger Listed(order, b)} | b < NBUF :: Listed(order, b))
    && next[NBUF] == order[0] && prev[order[0]] == NBUF
    && prev[NBUF] == order[NBUF - 1] && next[order[NBUF - 1]] == NBUF
    && (forall i {:trigger next[order[i]]} | 0 <= i < NBUF - 1 :: next[order[i]] == order[i + 1])
    && (forall i {:trigger prev[order[i]]} | 0 < i < NBUF :: prev[order[i]] == order[i - 1])
  }

  predicate Listed(order: seq<nat>, b: nat) { b in order }

  /** Moving element k to the front. */
  function ToFront(s: seq<nat>, k: nat): seq<nat>
    requires k < |s|
  {
    [s[k]] + s[..k] + s[k + 1..]
  }

  lemma FrontAt(s: seq<nat>, k: nat, i: nat)
    requires k < |s| && i < |s|
    ensures |ToFront(s, k)| == |s|
    ensures ToFront(s, k)[i] == if i == 0 then s[k] else if i <= k then s[i - 1] else s[i]
  {
  }

  /** The pointers after unlinking node b and linking it in behind the head. */
  ghost predicate Moved(n0: seq<nat>, p0: seq<nat>, b: nat, n: seq<nat>, p: seq<nat>)
    requires |n0| == |p0| == NBUF + 1 && b < NBUF && n0[b] <= NBUF && p0[b] <= NBUF
  {
    var p1 := p0[n0[b] := p0[b]];
    var n1 := n0[p1[b] := n0[b]];
    var n2 := n1[b := n1[NBUF]];
    var p2 := p1[b := NBUF];
    n2[NBUF] <= NBUF && p == p2[n2[NBUF] := b] && n == n2[NBUF := b]
  }

  lemma Neighbours(n0: seq<nat>, p0: seq<nat>, o: seq<nat>, k: nat)
    requires LinkedList(n0, p0, o) && k < NBUF
    ensures o[k] < NBUF
    ensures n0[o[k]] == if k < NBUF - 1 then o[k + 1] else NBUF
    ensures p0[o[k]] == if k > 0 then o[k - 1] else NBUF
  {
  }

  /** The pointers after the move, node by node; f is the front without b. */
  lemma MovedAt(n0: seq<nat>, p0: seq<nat>, b: nat, n: seq<nat>, p: seq<nat>, f: nat, x: nat)
    requires |n0| == |p0| == NBUF + 1 && b < NBUF && n0[b] <= NBUF && p0[b] <= NBUF && Moved(n0, p0, b, n, p)
    requires p0[b] != b && n0[b] != b && x <= NBUF && f == if p0[b] == NBUF then n0[b] else n0[NBUF]
    ensures |n| == |p| == NBUF + 1
    ensures n[x] == if x == NBUF then b else if x == b then f else if x == p0[b] then n0[b] else n0[x]
    ensures p[x] == if x == f then b else if x == b then NBUF else if x == n0[b] then p0[b] else p0[x]
  {
  }

  lemma Ends(n0: seq<nat>, p0: seq<nat>, o: seq<nat>, i: nat, j: nat)
    requires LinkedList(n0, p0, o) && i < NBUF && j < NBUF
    ensures n0[NBUF] == o[0] && p0[NBUF] == o[NBUF - 1] && o[i] < NBUF && (i != j ==> o[i] != o[j])
  {
  }

  lemma MovedNext(n0: seq<nat>, p0: seq<nat>, o: seq<nat>, k: nat, n: seq<nat>, p: seq<nat>, i: nat)
    requires LinkedList(n0, p0, o) && k < NBUF && i < NBUF
    requires o[k] < NBUF && n0[o[k]] <= NBUF && p0[o[k]] <= NBUF && Moved(n0, p0, o[k], n, p)
    ensures |n| == NBUF + 1 && |ToFront(o, k)| == NBUF && ToFront(o, k)[i] < NBUF
    ensures n[ToFront(o, k)[i]] == if i < NBUF - 1 then ToFront(o, k)[i + 1] else NBUF
    ensures n[NBUF] == o[k]
  {
    FrontAt(o, k, i);
    if i < NBUF - 1 { FrontAt(o, k, i + 1); }
    var x := ToFront(o, k)[i];
    var was := if i == 0 then k else if i <= k then i - 1 else i;
    Neighbours(n0, p0, o, k);
    Neighbours(n0, p0, o, was);
    Ends(n0, p0, o, was, k);
    Ends(n0, p0, o, 0, k);
    if k > 0 { Ends(n0, p0, o, was, k - 1); Ends(n0, p0, o, k - 1, k); }
    if k < NBUF - 1 { Ends(n0, p0, o, k + 1, k); }
    var f := if k == 0 then n0[o[k]] else n0[NBUF];
    hide LinkedList, Moved, ToFront;
    MovedAt(n0, p0, o[k], n, p, f, x);
    MovedAt(n0, p0, o[k], n, p, f, NBUF);
  }

  lemma MovedPrev(n0: seq<nat>, p0: seq<nat>, o: seq<nat>, k: nat, n: seq<nat>, p: seq<nat>, i: nat)
    requires LinkedList(n0, p0, o) && k < NBUF && i < NBUF
    requires o[k] < NBUF && n0[o[k]] <= NBUF && p0[o[k]] <= NBUF && Moved(n0, p0, o[k], n, p)
    ensures |p| == NBUF + 1 && |ToFront(o, k)| == NBUF && ToFront(o, k)[i] < NBUF
    ensures p[ToFront(o, k)[i]] == if i > 0 then ToFront(o, k)[i - 1] else NBUF
    ensures p[NBUF] == ToFront(o, k)[NBUF - 1]
  {
    FrontAt(o, k, i);
    if i > 0 { FrontAt(o, k, i - 1); }
    FrontAt(o, k, NBUF - 1);
    var x := ToFront(o, k)[i];
    var was := if i == 0 then k else if i <= k then i - 1 else i;
    Neighbours(n0, p0, o, k);
    Neighbours(n0, p0, o, was);
    Ends(n0, p0, o, was, k);
    Ends(n0, p0, o, 0, k);
    Ends(n0, p0, o, was, 0);
    if k > 0 { Ends(n0, p0, o, k - 1, k); }
    if k < NBUF - 1 { Ends(n0, p0, o, was, k + 1); Ends(n0, p0, o, k + 1, k); }
    var f := if k == 0 then n0[o[k]] else n0[NBUF];
    hide LinkedList, Moved, ToFront;
    MovedAt(n0, p0, o[k], n, p, f, x);
    MovedAt(n0, p0, o[k], n, p, f, NBUF);
  }

  predicate NodeAt(n: seq<nat>, p: seq<nat>, o: seq<nat>, i: nat) {
    && |n| == |p| == NBUF + 1 && |o| == NBUF && i < NBUF && o[i] < NBUF
    && n[o[i]] == (if i < NBUF - 1 then o[i + 1] else NBUF)
    && p[o[i]] == (if i > 0 then o[i - 1] else NBUF)
  }

  /** The pointer surgery of `release_block` moves the node to the front. */
  lemma MovedLinks(n0: seq<nat>, p0: seq<nat>, o: seq<nat>, k: nat, n: seq<nat>, p: seq<nat>)
    requires LinkedList(n0, p0, o) && k < NBUF
    requires o[k] < NBUF && n0[o[k]] <= NBUF && p0[o[k]] <= NBUF && Moved(n0, p0, o[k], n, p)
    ensures LinkedList(n, p, ToFront(o, k))
  {
    var o' := ToFront(o, k);
    forall i: nat | i < NBUF
      ensures NodeAt(n, p, o', i)
    {
      MovedNext(n0, p0, o, k, n, p, i);
      MovedPrev(n0, p0, o, k, n, p, i);
    }
    MovedNext(n0, p0, o, k, n, p, 0);
    MovedPrev(n0, p0, o, k, n, p, 0);
    FrontAt(o, k, 0);
    FrontOrder(o, k);
    assert NodeAt(n, p, o', 0) && NodeAt(n, p, o', NBUF - 1);
    forall i: nat | i < NBUF - 1
      ensures o'[i] < NBUF && n[o'[i]] == o'[i + 1] && p[o'[i + 1]] == o'[i]
    {
      assert NodeAt(n, p, o', i) && NodeAt(n, p, o', i + 1);
    }
  }

  lemma FrontOrder(o: seq<nat>, k: nat)
    requires |o| == NBUF && k < NBUF && (forall i, j | 0 <= i < j < NBUF :: o[i] != o[j])
    requires forall b: nat {:trigger Listed(o, b)} | b < NBUF :: Listed(o, b)
    ensures |ToFront(o, k)| == NBUF
    ensures forall i, j | 0 <= i < j < NBUF :: ToFront(o, k)[i] != ToFront(o, k)[j]
    ensures forall b: nat {:trigger Listed(ToFront(o, k), b)} | b < NBUF :: Listed(ToFront(o, k), b)
  {
    var o' := ToFront(o, k);
    forall i, j | 0 <= i < j < NBUF
      ensures o'[i] != o'[j]
    {
      FrontAt(o, k, i);
      FrontAt(o, k, j);
    }
    forall b: nat | b < NBUF
      ensures Listed(o', b)
    {
      assert Listed(o, b);
      var i :| 0 <= i < NBUF && o[i] == b;
      if i < k { FrontAt(o, k, i + 1); } else if i == k { FrontAt(o, k, 0); } else { FrontAt(o, k, i); }
    }
  }

  /* ---- how long ago a buffer was released ---- */

  /** The last place of b among the releases, in order of time; -1 for none. */
  ghost function LastRelease(releases: seq<nat>, b: nat): (k: int)
    ensures -1 <= k < |releases|
    ensures k >= 0 ==> releases[k] == b
    ensures forall j | k < j < |releases| :: releases[j] != b
  {
    if releases == [] then -1
    else if releases[|releases| - 1] == b then |releases| - 1
    else LastRelease(releases[..|releases| - 1], b)
  }

  /** Buffer b was released before c was; of two never used the lower number comes
      first. */
  ghost predicate Older(releases: seq<nat>, b: nat, c: nat) {
    var (i, j) := (LastRelease(releases, b), LastRelease(releases, c));
    i < j || (i == -1 && j == -1 && b < c)
  }

  /** From the back of the list to its front the buffers get younger. */
  ghost predicate Aged(order: seq<nat>, releases: seq<nat>) {
    forall i, j | 0 <= i < j < |order| :: Older(releases, order[j], order[i])
  }

  lemma OneMoreRelease(releases: seq<nat>, b: nat, c: nat)
    ensures LastRelease(releases + [b], c) == if c == b then |releases| else LastRelease(releases, c)
  {
    assert (releases + [b])[..|releases|] == releases;
  }

  /** Moving the buffer just released to the front keeps the list in order of age. */
  lemma FrontAged(order: seq<nat>, releases: seq<nat>, k: nat)
    requires Aged(order, releases) && k < |order| && forall i, j | 0 <= i < j < |order| :: order[i] != order[j]
    ensures Aged(ToFront(order, k), releases + [order[k]])
  {
    var o, r := ToFront(order, k), releases + [order[k]];
    hide ToFront;
    forall i, j | 0 <= i < j < |o|
      ensures Older(r, o[j], o[i])
    {
      FrontAt(order, k, i);
      FrontAt(order, k, j);
      OneMoreRelease(releases, order[k], o[i]);
      OneMoreRelease(releases, order[k], o[j]);
      if i > 0 {
        var i', j' := if i <= k then i - 1 else i, if j <= k then j - 1 else j;
        assert Older(releases, order[j'], order[i']);
      }
    }
  }

  lemma FrontOfAged(o: seq<nat>, o': seq<nat>, releases: seq<nat>, b: nat)
    requires Aged(o, releases) && forall i, j | 0 <= i < j < |o| :: o[i] != o[j]
    requires exists k :: 0 <= k < |o| && o[k] == b && o' == ToFront(o, k)
    ensures Aged(o', releases + [b])
  {
    var k :| 0 <= k < |o| && o[k] == b && o' == ToFront(o, k);
    FrontAged(o, releases, k);
  }

  /** The victim is the one released longest ago, of those that are free. */
  lemma LastFreeIsOldest(bufs: seq<Buf>, order: seq<nat>, releases: seq<nat>, b: nat, c: nat)
    requires Aged(order, releases) && Within(bufs, order) && LastFree(bufs, order, b)
    requires c < |bufs| && c in order && c != b && bufs[c].refcnt == 0
    ensures Older(releases, b, c)
  {
    var k: nat :| k < |order| && order[k] == b && forall j: nat | k < j < |order| :: bufs[order[j]].refcnt > 0;
    var i: nat :| i < |order| && order[i] == c;
    assert i < k;
  }

  function CountsOf(bufs: seq<Buf>): seq<nat> {
    seq(|bufs|, i requires 0 <= i < |bufs| => bufs[i].refcnt)
  }

  lemma SameCounts(before: seq<Buf>, after: seq<Buf>, b: nat)
    requires b < |before| == |after| && after[b].refcnt == before[b].refcnt
    requires after == before[b := after[b]]
    ensures CountsOf(after) == CountsOf(before)
  {
  }

  lemma Advance(done: seq<Byte>, rest: seq<Byte>, n: nat)
    requires n <= |rest|
    ensures (done + rest[..n]) + rest[n..] == done + rest
    ensures rest == [] ==> done + rest == done
  {
  }

  lemma StartLinks(next: seq<nat>, prev: seq<nat>, order: seq<nat>)
    requires |next| == |prev| == NBUF + 1 && |order| == NBUF
    requires forall i | 0 <= i < NBUF :: order[i] == NBUF - 1 - i
    requires next[NBUF] == NBUF - 1 && prev[NBUF] == 0
    requires forall j | 0 <= j < NBUF :: next[j] == if j == 0 then NBUF else j - 1
    requires forall j | 0 <= j < NBUF :: prev[j] == if j == NBUF - 1 then NBUF else j + 1
    ensures LinkedList(next, prev, order)
  {
    forall b: nat | b < NBUF
      ensures Listed(order, b)
    {
      assert order[NBUF - 1 - b] == b;
    }
  }

  lemma StartAged(order: seq<nat>)
    requires |order| == NBUF && forall i | 0 <= i < NBUF :: order[i] == NBUF - 1 - i
    ensures Aged(order, [])
  {
  }

  lemma StartCoherent(bufs: seq<Buf>, d: Disk)
    requires bufs == seq(NBUF, _ => EMPTY)
    ensures Coherent(bufs, d, d, -1)
  {
  }

  class BlockCache {
    const bufs: array<Buf>
    const next: array<nat>
    const prev: array<nat>
    var disk: Disk             // the device behind the cache
    ghost var order: seq<nat>  // the list, most recently used first
    ghost var releases: seq<nat>  // each buffer whose last holder let go, in order of time
    ghost var view: Disk       // the plain disk the cache presents

    /** `block_cache_init`: every buffer unused, the last one in front. */
    constructor (d: Disk)
      ensures Valid() && fresh(bufs) && fresh(next) && fresh(prev) && bufs.Length == 30
      ensures disk == d && view == d && releases == [] && forall b: nat | b < NBUF :: bufs[b].refcnt == 0
    {
      bufs := new Buf[NBUF](_ => EMPTY);
      next := new nat[NBUF + 1](_ => 0);
      prev := new nat[NBUF + 1](_ => 0);
      disk, view, releases := d, d, [];
      order := seq(NBUF, i requires 0 <= i < NBUF => NBUF - 1 - i);
      new;
      next[NBUF], prev[NBUF] := NBUF, NBUF;
      var b := 0;
      while b < NBUF
        invariant 0 <= b <= NBUF && bufs[..] == seq(NBUF, _ => EMPTY) && disk == d && view == d && releases == []
        invariant order == seq(NBUF, i requires 0 <= i < NBUF => NBUF - 1 - i)
        invariant next[NBUF] == (if b == 0 then NBUF else b - 1) && prev[NBUF] == (if b == 0 then NBUF else 0)
        invariant forall j | 0 <= j < b :: next[j] == (if j == 0 then NBUF else j - 1)
        invariant forall j | 0 <= j < b :: prev[j] == (if j == b - 1 then NBUF else j + 1)
      {
        next[b] := next[NBUF];
        prev[b] := NBUF;
        prev[next[NBUF]] := b;
        next[NBUF] := b;
        b := b + 1;
      }
      StartLinks(next[..], prev[..], order);
      StartCoherent(bufs[..], d);
      StartAged(order);
      hide Aged, Presents;
    }

    ghost predicate Linked()
      reads this, next, prev
    {
      next.Length == prev.Length == NBUF + 1 && next != prev && LinkedList(next[..], prev[..], order)
    }

    ghost predicate Valid()
      reads this, bufs, next, prev
    {
      Linked() && bufs.Length == NBUF && Coherent(bufs[..], disk, view, -1) && Aged(order, releases)
    }

    /** The hit of `get_block`, searching from the most recently used end. */
    method FindCached(key: Key) returns (b: int)
      requires Linked() && bufs.Length == NBUF
      ensures b == -1 <==> !Cached(bufs[..], key)
      ensures b != -1 ==> 0 <= b < NBUF && KeyOf(bufs[b]) == key
    {
      var c := next[NBUF];
      ghost var i: nat := 0;
      while c != NBUF
        invariant i <= NBUF && c == (if i < NBUF then order[i] else NBUF)
        invariant forall j | 0 <= j < i :: KeyOf(bufs[order[j]]) != key
        decreases NBUF - i
      {
        if KeyOf(bufs[c]) == key {
          assert bufs[..][c] == bufs[c];
          return c;
        }
        assert next[..][order[i]] == next[c];
        c := next[c];
        i := i + 1;
      }
      forall b: nat | b < NBUF
        ensures KeyOf(bufs[..][b]) != key
      {
        assert Listed(order, b);
      }
      return -1;
    }

    /** The victim of `get_block`: the least recently used buffer nobody holds. */
    method FindUnused() returns (b: int)
      requires Linked() && bufs.Length == NBUF
      ensures b == -1 <==> forall c: nat | c < NBUF :: bufs[c].refcnt > 0
      ensures b != -1 ==> 0 <= b < NBUF && LastFree(bufs[..], order, b)
    {
      var c := prev[NBUF];
      ghost var i := NBUF - 1;
      while c != NBUF
        invariant -1 <= i < NBUF && c == (if i >= 0 then order[i] else NBUF)
        invariant forall j | i < j < NBUF :: bufs[order[j]].refcnt > 0
        decreases i
      {
        if bufs[c].refcnt == 0 {
          assert forall j: nat | i < j < NBUF :: bufs[..][order[j]].refcnt > 0;
          return c;
        }
        assert prev[..][order[i]] == prev[c];
        c := prev[c];
        i := i - 1;
      }
      forall b: nat | b < NBUF
        ensures bufs[b].refcnt > 0
      {
        assert Listed(order, b);
      }
      return -1;
    }

    lemma OldestFree(b: nat)
      requires Valid() && LastFree(bufs[..], order, b)
      ensures forall c: nat | c < NBUF && c != b && bufs[c].refcnt == 0 :: Older(releases, b, c)
    {
      forall c: nat | c < NBUF && c != b && bufs[c].refcnt == 0
        ensures Older(releases, b, c)
      {
        assert Listed(order, c) && bufs[..][c] == bufs[c];
        LastFreeIsOldest(bufs[..], order, releases, b, c);
      }
    }

    /** `get_block` and the transfer of `read_block`: -1 is the panic when every
        buffer is held. A hit keeps the buffer; a miss takes the least recently
        used buffer nobody holds, writing it back first if it is dirty. */
    method ReadBlock(dev: nat, bid: nat) returns (b: int)
      requires Valid() && dev != 0 && (dev, bid) in disk
      modifies this`disk, bufs
      ensures Valid() && disk.Keys == old(disk.Keys)
      ensures b == -1 <==> !old(Cached(bufs[..], (dev, bid))) && forall c: nat | c < NBUF :: old(bufs[c].refcnt) > 0
      ensures b == -1 ==> bufs[..] == old(bufs[..]) && disk == old(disk)
      ensures b != -1 ==> 0 <= b < NBUF && KeyOf(bufs[b]) == (dev, bid) && bufs[b].valid
                          && (dev, bid) in view && bufs[b].data == view[(dev, bid)]
                          && bufs[b].refcnt == old(bufs[b].refcnt) + 1
                          && bufs[..] == old(bufs[..])[b := bufs[b]]
      ensures b != -1 ==> bufs[b].dirty == old(bufs[b].dirty)
      ensures b != -1 && old(Cached(bufs[..], (dev, bid))) ==> old(KeyOf(bufs[b])) == (dev, bid) && disk == old(disk)
      ensures b != -1 && !old(Cached(bufs[..], (dev, bid))) ==>
                && LastFree(old(bufs[..]), order, b)
                && disk == (if old(bufs[b].dirty) then old(disk)[old(KeyOf(bufs[b])) := old(bufs[b].data)]
                            else old(disk))
                && forall c: nat | c < NBUF && c != b && old(bufs[c].refcnt) == 0 :: Older(releases, b, c)
    {
      hide Aged, Older, LinkedList, LastFree;
      var key := (dev, bid);
      b := FindCached(key);
      ghost var was := bufs[..];
      if b != -1 {
        bufs[b] := bufs[b].(refcnt := bufs[b].refcnt + 1);
        CountKeeps(was, disk, view, b, was[b].refcnt + 1);
        assert bufs[..] == was[b := bufs[b]];
      } else {
        b := FindUnused();
        if b == -1 {
          return;
        }
        OldestFree(b);
        Recycle(b, dev, bid);
      }
      if !bufs[b].valid {
        ghost var mid := bufs[..];
        FillKeeps(mid, disk, view, b);
        bufs[b] := bufs[b].(data := disk[key], valid := true);
        assert bufs[..] == mid[b := bufs[b]];
      }
      assert Loaded(bufs[..], view, b);
    }

    /** The second half of `get_block`. */
    method Recycle(b: nat, dev: nat, bid: nat)
      requires Valid() && b < NBUF && bufs[b].refcnt == 0
      requires dev != 0 && (dev, bid) in disk && !Cached(bufs[..], (dev, bid))
      modifies this`disk, bufs
      ensures Linked() && Coherent(bufs[..], disk, view, b) && disk.Keys == old(disk.Keys)
      ensures KeyOf(bufs[b]) == (dev, bid) && bufs[b].refcnt == 1 && !bufs[b].valid
      ensures bufs[b].dirty == old(bufs[b].dirty)
      ensures disk == if old(bufs[b].dirty) then old(disk)[old(KeyOf(bufs[b])) := old(bufs[b].data)] else old(disk)
      ensures bufs[..] == old(bufs[..])[b := bufs[b]]
    {
      ghost var was := bufs[..];
      if bufs[b].dirty {
        FlushBlock(b);
      }
      RecycleKeeps(was, disk, view, b, (dev, bid), was[b].(dev := dev, block_id := bid, valid := false, refcnt := 1));
      bufs[b] := bufs[b].(dev := dev, block_id := bid, valid := false, refcnt := 1);
      assert bufs[..] == was[b := bufs[b]];
    }

    /** `flush_block`: write a dirty buffer back; its dirty flag stays. */
    method FlushBlock(b: nat)
      requires Valid() && b < NBUF && bufs[b].dirty
      modifies this`disk
      ensures Valid() && KeyOf(bufs[b]) in old(disk) && disk == old(disk)[KeyOf(bufs[b]) := bufs[b].data]
    {
      assert bufs[..][b] == bufs[b];
      FlushKeeps(bufs[..], disk, view, b);
      disk := disk[KeyOf(bufs[b]) := bufs[b].data];
    }

    /** A change of the held data followed by `write_block`. */
    method WriteBlock(b: nat, data: Block)
      requires Valid() && b < NBUF && bufs[b].valid
      modifies this`view, bufs
      ensures Valid() && KeyOf(bufs[b]) in old(view) && view == old(view)[KeyOf(bufs[b]) := data]
      ensures bufs[..] == old(bufs[..])[b := old(bufs[b]).(data := data, dirty := true)]
    {
      ghost var was := bufs[..];
      ModifyKeeps(was, disk, view, b, data);
      bufs[b] := bufs[b].(data := data);
      bufs[b] := bufs[b].(dirty := true);
      view := view[KeyOf(bufs[b]) := data];
      assert bufs[..] == was[b := was[b].(data := data, dirty := true)];
    }

    /** `release_block`: the last holder moves the buffer to the front. */
    method ReleaseBlock(b: nat)
      requires Valid() && b < NBUF && bufs[b].refcnt > 0
      modifies this`order, this`releases, bufs, next, prev
      ensures Valid()
      ensures bufs[..] == old(bufs[..])[b := old(bufs[b]).(refcnt := old(bufs[b].refcnt) - 1)]
      ensures if old(bufs[b].refcnt) == 1
              then exists k :: 0 <= k < NBUF && old(order)[k] == b && order == ToFront(old(order), k)
              else order == old(order)
      ensures releases == if old(bufs[b].refcnt) == 1 then old(releases) + [b] else old(releases)
    {
      ghost var was := bufs[..];
      CountKeeps(was, disk, view, b, was[b].refcnt - 1);
      bufs[b] := bufs[b].(refcnt := bufs[b].refcnt - 1);
      assert bufs[..] == was[b := was[b].(refcnt := was[b].refcnt - 1)];
      if bufs[b].refcnt == 0 {
        ghost var o := order;
        MoveToFront(b);
        FrontOfAged(o, order, releases, b);
        releases := releases + [b];
      }
    }

    /** Unlink the node and link it in behind the head. */
    method MoveToFront(b: nat)
      requires Linked() && b < NBUF
      modifies this`order, next, prev
      ensures Linked()
      ensures exists k :: 0 <= k < NBUF && old(order)[k] == b && order == ToFront(old(order), k)
    {
      assert Listed(order, b);
      ghost var k :| 0 <= k < NBUF && order[k] == b;
      ghost var n0, p0, o := next[..], prev[..], order;
      prev[next[b]] := prev[b];
      next[prev[b]] := next[b];
      next[b] := next[NBUF];
      prev[b] := NBUF;
      prev[next[NBUF]] := b;
      next[NBUF] := b;
      order := ToFront(order, k);
      MovedLinks(n0, p0, o, k, next[..], prev[..]);
    }

    /** Some buffer is not held. */
    ghost predicate Room()
      reads bufs
    {
      0 in Counts()
    }

    ghost function Counts(): seq<nat>
      reads bufs
    {
      CountsOf(bufs[..])
    }

    lemma HasRoom()
      requires Room()
      ensures exists c: nat :: c < bufs.Length && bufs[c].refcnt == 0
    {
      var c :| 0 <= c < |Counts()| && Counts()[c] == 0;
      assert bufs[c].refcnt == 0;
    }

    /** `read_bytes_to_buffer`: crosses blocks, holds one buffer at a time. */
    method ReadBytes(vol: Volume, block_id: nat, offset: nat, size: nat) returns (bytes: seq<Byte>)
      requires Valid() && Room() && OnDisk(vol, disk)
      requires block_id * BSIZE + offset + size <= |vol.blocks| * BSIZE
      modifies this`disk, this`order, this`releases, bufs, next, prev
      ensures Valid() && Counts() == old(Counts()) && disk.Keys == old(disk.Keys)
      ensures OnDisk(vol, view) && bytes == Slice(view, vol, block_id * BSIZE + offset, size)
    {
      hide Aged;
      bytes := [];
      var bid: nat, off: nat, left: nat := block_id + offset / BSIZE, offset % BSIZE, size;
      ghost var start := block_id * BSIZE + offset;
      SplitAddress(block_id, offset);
      while left > 0
        invariant Valid() && Counts() == old(Counts()) && disk.Keys == old(disk.Keys) && view == old(view)
        invariant OnDisk(vol, disk) && OnDisk(vol, view) && |bytes| + left == size
        invariant left > 0 ==> off < BSIZE && bid * BSIZE + off == start + |bytes|
        invariant bytes == Slice(view, vol, start, |bytes|)
      {
        var n := if left >= BSIZE - off then BSIZE - off else left;
        var chunk := ReadPart(vol, bid, off, n);
        JoinSlices(view, vol, start, |bytes|, n);
        bytes := bytes + chunk;
        left := left - n;
        off := 0;
        bid := bid + 1;
      }
    }

    /** One round of that loop: `read_block`, copy, `release_block`. */
    method ReadPart(vol: Volume, bid: nat, off: nat, n: nat) returns (chunk: seq<Byte>)
      requires Valid() && Room() && OnDisk(vol, disk) && OnDisk(vol, view)
      requires bid < |vol.blocks| && off + n <= BSIZE
      modifies this`disk, this`order, this`releases, bufs, next, prev
      ensures Valid() && Counts() == old(Counts()) && disk.Keys == old(disk.Keys)
      ensures chunk == Slice(view, vol, bid * BSIZE + off, n)
    {
      hide Aged;
      ghost var before := bufs[..];
      HasRoom();
      var b := ReadBlock(vol.dev, vol.blocks[bid]);
      chunk := bufs[b].data[off..off + n];
      BlockSlice(view, vol, bid, off, n);
      ReleaseBlock(b);
      SameCounts(before, bufs[..], b);
    }

    /** `read_to_buffer`: whole blocks. */
    method ReadBlocks(vol: Volume, block_id: nat, cnt: nat) returns (bytes: seq<Byte>)
      requires Valid() && Room() && OnDisk(vol, disk) && block_id + cnt <= |vol.blocks|
      modifies this`disk, this`order, this`releases, bufs, next, prev
      ensures Valid() && Counts() == old(Counts()) && disk.Keys == old(disk.Keys)
      ensures OnDisk(vol, view) && bytes == Slice(view, vol, block_id * BSIZE, cnt * BSIZE)
    {
      hide Aged;
      bytes := [];
      var i := 0;
      while i < cnt
        invariant 0 <= i <= cnt
        invariant Valid() && Counts() == old(Counts()) && disk.Keys == old(disk.Keys) && view == old(view)
        invariant OnDisk(vol, disk) && OnDisk(vol, view)
        invariant bytes == Slice(view, vol, block_id * BSIZE, i * BSIZE)
      {
        var chunk := ReadPart(vol, block_id + i, 0, BSIZE);
        JoinSlices(view, vol, block_id * BSIZE, i * BSIZE, BSIZE);
        bytes := bytes + chunk;
        i := i + 1;
      }
    }

    /** `write_to_disk`: whole blocks. */
    method WriteBlocks(vol: Volume, block_id: nat, cnt: nat, bytes: seq<Byte>)
      requires Valid() && Room() && OnDisk(vol, disk) && OneToOne(vol)
      requires block_id + cnt <= |vol.blocks| && |bytes| == cnt * BSIZE
      modifies this`disk, this`view, this`order, this`releases, bufs, next, prev
      ensures Valid() && Counts() == old(Counts()) && disk.Keys == old(disk.Keys)
      ensures Overwrites(old(view), view, vol, block_id * BSIZE, bytes)
    {
      hide Aged;
      NothingYet(view, vol, block_id * BSIZE);
      var i := 0;
      while i < cnt
        invariant 0 <= i <= cnt
        invariant Valid() && Counts() == old(Counts()) && disk.Keys == old(disk.Keys)
        invariant OnDisk(vol, disk) && OnDisk(vol, view)
        invariant Overwrites(old(view), view, vol, block_id * BSIZE, bytes[..i * BSIZE])
      {
        WriteRound(vol, block_id + i, 0, bytes[i * BSIZE..(i + 1) * BSIZE], old(view), block_id * BSIZE,
                   bytes[..i * BSIZE]);
        assert bytes[..i * BSIZE] + bytes[i * BSIZE..(i + 1) * BSIZE] == bytes[..(i + 1) * BSIZE];
        i := i + 1;
      }
      assert bytes[..i * BSIZE] == bytes;
    }

    /** `write_bytes_to_disk`: overwrites exactly its byte range of the volume. */
    method WriteBytes(vol: Volume, block_id: nat, offset: nat, bytes: seq<Byte>)
      requires Valid() && Room() && OnDisk(vol, disk) && OneToOne(vol)
      requires block_id * BSIZE + offset + |bytes| <= |vol.blocks| * BSIZE
      modifies this`disk, this`view, this`order, this`releases, bufs, next, prev
      ensures Valid() && Counts() == old(Counts()) && disk.Keys == old(disk.Keys)
      ensures Overwrites(old(view), view, vol, block_id * BSIZE + offset, bytes)
    {
      var bid: nat, off: nat, rest := block_id + offset / BSIZE, offset % BSIZE, bytes;
      ghost var start, done := block_id * BSIZE + offset, [];
      SplitAddress(block_id, offset);
      NothingYet(view, vol, start);
      hide Valid, Overwrites, OneToOne;
      while |rest| > 0
        invariant Valid() && Counts() == old(Counts()) && disk.Keys == old(disk.Keys)
        invariant OnDisk(vol, disk) && OnDisk(vol, view) && done + rest == bytes
        invariant rest != [] ==> off < BSIZE && bid * BSIZE + off == start + |done|
        invariant Overwrites(old(view), view, vol, start, done)
      {
        var n := if |rest| >= BSIZE - off then BSIZE - off else |rest|;
        WriteRound(vol, bid, off, rest[..n], old(view), start, done);
        Advance(done, rest, n);
        done := done + rest[..n];
        rest := rest[n..];
        off := 0;
        bid := bid + 1;
      }
      Advance(done, rest, 0);
    }

    /** One round of that loop extends what has been overwritten. */
    method WriteRound(vol: Volume, bid: nat, off: nat, part: seq<Byte>, ghost v0: Disk, ghost a: nat,
                      ghost done: seq<Byte>)
      requires Valid() && Room() && OnDisk(vol, disk) && OneToOne(vol)
      requires bid < |vol.blocks| && off + |part| <= BSIZE && bid * BSIZE + off == a + |done|
      requires Overwrites(v0, view, vol, a, done)
      modifies this`disk, this`view, this`order, this`releases, bufs, next, prev
      ensures Valid() && Counts() == old(Counts()) && disk.Keys == old(disk.Keys)
      ensures Overwrites(v0, view, vol, a, done + part)
    {
      hide Aged;
      ghost var was := view;
      WritePart(vol, bid, off, part);
      OverwriteMore(v0, was, view, vol, a, done, bid, off, part);
    }

    /** `read_block`, change, `write_block`, `release_block`. */
    method WritePart(vol: Volume, bid: nat, off: nat, part: seq<Byte>)
      requires Valid() && Room() && OnDisk(vol, disk) && OnDisk(vol, view)
      requires bid < |vol.blocks| && off + |part| <= BSIZE
      modifies this`disk, this`view, this`order, this`releases, bufs, next, prev
      ensures Valid() && Counts() == old(Counts()) && disk.Keys == old(disk.Keys)
      ensures view == Patched(old(view), vol, bid, off, part)
    {
      hide Coherent, LinkedList;
      ghost var before := bufs[..];
      HasRoom();
      var b := ReadBlock(vol.dev, vol.blocks[bid]);
      var data := bufs[b].data;
      WriteBlock(b, data[..off] + part + data[off + |part|..]);
      ReleaseBlock(b);
      SameCounts(before, bufs[..], b);
    }

    /** `flush_cache_to_disk`: afterwards the disk is the plain disk. */
    method FlushCache()
      requires Valid()
      modifies this`disk
      ensures Valid() && disk == view
    {
      hide Aged;
      var c := next[NBUF];
      ghost var i: nat := 0;
      while c != NBUF
        invariant i <= NBUF && c == (if i < NBUF then order[i] else NBUF)
        invariant Valid()
        invariant forall j | 0 <= j < i :: Flushed(bufs[..], disk, order[j])
        decreases NBUF - i
      {
        ghost var was := disk;
        if bufs[c].dirty {
          FlushBlock(c);
        }
        forall j | 0 <= j < i
          ensures Flushed(bufs[..], disk, order[j])
        {
          if bufs[c].dirty && bufs[order[j]].dirty {
            assert Unlike(bufs[..], order[j], c) && Loaded(bufs[..], view, order[j]);
          }
        }
        assert next[..][order[i]] == next[c];
        c := next[c];
        i := i + 1;
      }
      forall b: nat | b < NBUF
        ensures Flushed(bufs[..], disk, b)
      {
        assert Listed(order, b);
      }
      AllFlushed(bufs[..], disk, view);
    }
  }
}
