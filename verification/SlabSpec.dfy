/** Slabs of `kernel/pmm.c` on values: one page cut into objects of one size,
    the free ones threaded into a list. */
module SlabSpec {
  import opened Arith
  import opened Bits
  import opened Pages

  const HEADER: nat := 24            // sizeof(slab_t)
  const CLASSES: nat := 9
  const MAX_OBJECT: nat := 2048
  const NULL: nat := 0

  function SizeOf(c: nat): nat { 8 * Pow2(c) }

  function NumOf(size: nat): nat
    requires size > 0
  {
    (PG_SIZE - HEADER) / size
  }

  function OffOf(size: nat): int
    requires size > 0
  {
    PG_SIZE - NumOf(size) * size
  }

  ghost predicate IsSize(size: nat) { exists c: nat :: c < CLASSES && SizeOf(c) == size }

  lemma PowTable()
    ensures Pow2(0) == 1 && Pow2(1) == 2 && Pow2(2) == 4 && Pow2(3) == 8 && Pow2(4) == 16
    ensures Pow2(5) == 32 && Pow2(6) == 64 && Pow2(7) == 128 && Pow2(8) == 256 && Pow2(9) == 512
  {
  }

  /** In every class the objects fill the page behind the header, from a multiple
      of their size on. */
  lemma ClassTable(size: nat)
    requires IsSize(size)
    ensures size > 0 && size % 8 == 0 && PG_SIZE % size == 0 && NumOf(size) >= 1
    ensures HEADER <= OffOf(size) < PG_SIZE && OffOf(size) % size == 0 && size <= MAX_OBJECT
  {
    PowTable();
    var c: nat :| c < CLASSES && SizeOf(c) == size;
    assert c == 0 || c == 1 || c == 2 || c == 3 || c == 4 || c == 5 || c == 6 || c == 7 || c == 8;
    assert size == 8 || size == 16 || size == 32 || size == 64 || size == 128 || size == 256 || size == 512
           || size == 1024 || size == 2048;
  }

  /** As many objects as fit beside the 24 bytes of the header, and no more. */
  lemma MostObjects(size: nat, n: nat)
    requires size > 0
    ensures 24 + n * size <= 4096 <==> n <= NumOf(size)
  {
    var m := NumOf(size);
    assert m * size <= 4072 < m * size + size;
    if n <= m { Scale(n, m, size); } else { NextMultiple(m, size); Scale(m + 1, n, size); }
  }

  /** The slab header without padding; `empty` as the flag it is. */
  datatype SlabHead = SlabHead(empty: bool, size: nat, next: nat, freelist: nat)

  datatype KmemCache = KmemCache(object_size: nat, object_num: nat, offset: nat, slab_list: nat)

  /** a is the address of an object of the slab at page address pa. */
  predicate IsObject(pa: nat, size: nat, a: nat) {
    size > 0 && pa + OffOf(size) <= a && a + size <= pa + PG_SIZE && (a - pa) % size == 0
  }

  lemma ObjectPage(pa: nat, size: nat, a: nat)
    requires IsSize(size) && pa % PG_SIZE == 0 && IsObject(pa, size, a)
    ensures Floor(a) == pa && a % PG_SIZE != 0 && a % size == 0
  {
    ClassTable(size);
    var d := a - pa;
    assert 0 < d < PG_SIZE;
    InPage(pa, d);
    MultipleSum(pa, d, size);
  }

  lemma InPage(pa: nat, d: nat)
    requires pa % PG_SIZE == 0 && d < PG_SIZE
    ensures (pa + d) % PG_SIZE == d
  {
  }

  lemma MultipleSum(pa: nat, d: nat, size: nat)
    requires size > 0 && pa % PG_SIZE == 0 && PG_SIZE % size == 0 && d % size == 0
    ensures (pa + d) % size == 0
  {
    var m, n, k := pa / PG_SIZE, PG_SIZE / size, d / size;
    assert PG_SIZE == n * size && d == k * size && pa == m * PG_SIZE;
    Regroup(m, n, size);
    assert pa + d == (m * n + k) * size;
    Multiple(m * n + k, size);
  }

  /** Objects with different addresses do not overlap. */
  lemma ObjectsApart(pa: nat, size: nat, a: nat, b: nat)
    requires IsObject(pa, size, a) && IsObject(pa, size, b) && a < b
    ensures a + size <= b
  {
    MultiplesApart(a - pa, b - pa, size);
  }

  lemma MultiplesApart(x: int, y: int, size: nat)
    requires size > 0 && x % size == 0 && y % size == 0 && x < y
    ensures x + size <= y
  {
    var i, j := x / size, y / size;
    assert x == i * size && y == j * size;
    assert (j - i) * size == y - x;
    if j - i >= 1 { Steps(0, j - i, size); } else { NotPositive(j - i, size); }
  }

  /* ---- free lists ---- */

  function Link(s: seq<nat>, i: nat): nat { if i + 1 < |s| then s[i + 1] else NULL }

  predicate Linked(next: map<nat, nat>, s: seq<nat>, i: nat)
    requires i < |s|
  {
    s[i] != NULL && s[i] in next && next[s[i]] == Link(s, i)
  }

  /** next threads exactly the addresses of s, each once, from head to NULL. */
  ghost predicate Threaded(next: map<nat, nat>, head: nat, s: seq<nat>) {
    && head == (if s == [] then NULL else s[0])
    && (forall i: nat {:trigger Linked(next, s, i)} | i < |s| :: Linked(next, s, i))
    && (forall i, j | 0 <= i < j < |s| :: s[i] != s[j])
  }

  /** A slab whose free objects are those of free, the others being live. */
  ghost predicate SlabOk(pa: nat, head: SlabHead, free: seq<nat>, live: set<nat>, next: map<nat, nat>) {
    && IsSize(head.size) && !head.empty && head.next == NULL && Threaded(next, head.freelist, free)
    && (forall a | a in free :: IsObject(pa, head.size, a))
    && (forall a {:trigger IsObject(pa, head.size, a)} | IsObject(pa, head.size, a) :: a in live <==> a !in free)
  }

  lemma ThreadTail(next: map<nat, nat>, head: nat, s: seq<nat>)
    requires Threaded(next, head, s) && s != []
    ensures head == s[0] && s[0] != NULL && s[0] in next && s[0] !in s[1..] && Threaded(next, next[s[0]], s[1..])
  {
    assert Linked(next, s, 0);
    forall i: nat | i < |s| - 1
      ensures Linked(next, s[1..], i)
    {
      assert Linked(next, s, i + 1);
    }
  }

  /** Taking the first free object. */
  lemma PopOk(pa: nat, head: SlabHead, free: seq<nat>, live: set<nat>, next: map<nat, nat>)
    requires SlabOk(pa, head, free, live, next) && free != []
    ensures var p := head.freelist;
            && p == free[0] && p in next && p != NULL && IsObject(pa, head.size, p) && p !in live
            && SlabOk(pa, head.(freelist := next[p]), free[1..], live + {p}, next)
            && (next[p] == NULL <==> free[1..] == [])
  {
    ThreadTail(next, head.freelist, free);
    var p := head.freelist;
    assert p in free;
    assert forall a | a in free[1..] :: a in free;
    forall a | IsObject(pa, head.size, a)
      ensures a in live + {p} <==> a !in free[1..]
    {
      assert free == [p] + free[1..];
    }
    if free[1..] != [] { ThreadTail(next, next[p], free[1..]); }
  }

  /** Putting a live object back in front. */
  lemma PushOk(pa: nat, head: SlabHead, free: seq<nat>, live: set<nat>, next: map<nat, nat>, p: nat)
    requires SlabOk(pa, head, free, live, next) && IsObject(pa, head.size, p) && p in live && p != NULL
    ensures SlabOk(pa, head.(freelist := p), [p] + free, live - {p}, next[p := head.freelist])
  {
    var s, next' := [p] + free, next[p := head.freelist];
    assert p !in free;
    forall i: nat | i < |s|
      ensures Linked(next', s, i)
    {
      if i > 0 { assert Linked(next, free, i - 1) && free[i - 1] in free; }
    }
    forall a | IsObject(pa, head.size, a)
      ensures a in live - {p} <==> a !in s
    {
      assert a in s <==> a == p || a in free;
    }
  }

  /** A slab does not notice an object of another page. */
  lemma OtherSlabOk(pa: nat, head: SlabHead, free: seq<nat>, live: set<nat>, next: map<nat, nat>,
                    live': set<nat>, next': map<nat, nat>, p: nat, v: nat)
    requires SlabOk(pa, head, free, live, next) && pa % PG_SIZE == 0 && Floor(p) != pa
    requires live' == live + {p} || live' == live - {p}
    requires next' == next || next' == next[p := v]
    ensures SlabOk(pa, head, free, live', next')
  {
    forall a | IsObject(pa, head.size, a)
      ensures a != p
    {
      ObjectPage(pa, head.size, a);
    }
    assert p !in free;
    forall i: nat | i < |free|
      ensures Linked(next', free, i)
    {
      assert Linked(next, free, i) && free[i] in free;
    }
  }

  /** The objects of a fresh slab, in address order. */
  function Objects(pa: nat, size: nat): seq<nat>
    requires IsSize(size)
  {
    ClassTable(size);
    seq<nat>(NumOf(size), i requires 0 <= i < NumOf(size) => pa + OffOf(size) + i * size)
  }

  lemma ObjectsAt(pa: nat, size: nat, i: nat)
    requires IsSize(size) && i < NumOf(size)
    ensures i < |Objects(pa, size)| && Objects(pa, size)[i] == pa + OffOf(size) + i * size
    ensures IsObject(pa, size, Objects(pa, size)[i])
  {
    ClassTable(size);
    Steps(i, NumOf(size), size);
    SumMultiple(OffOf(size), i, size);
  }

  lemma SumMultiple(off: nat, i: nat, size: nat)
    requires size > 0 && off % size == 0
    ensures (off + i * size) % size == 0
  {
    var k := off / size;
    assert off + i * size == (k + i) * size;
    Multiple(k + i, size);
  }

  lemma ObjectsIncrease(pa: nat, size: nat, i: nat, j: nat)
    requires IsSize(size) && i < j < NumOf(size)
    ensures |Objects(pa, size)| == NumOf(size) && Objects(pa, size)[i] < Objects(pa, size)[j]
  {
    ClassTable(size);
    Steps(i, j, size);
  }

  lemma ObjectsAll(pa: nat, size: nat, a: nat)
    requires IsSize(size) && IsObject(pa, size, a)
    ensures a in Objects(pa, size)
  {
    ClassTable(size);
    var i := ObjectIndex(a - pa, OffOf(size), NumOf(size), size);
    ObjectsAt(pa, size, i);
  }

  lemma ObjectIndex(d: nat, off: nat, n: nat, size: nat) returns (i: nat)
    requires size > 0 && d % size == 0 && off % size == 0 && off <= d && d + size <= off + n * size
    ensures i < n && d == off + i * size
  {
    var x, y := d / size, off / size;
    assert d == x * size && off == y * size;
    if x < y { Steps(x, y, size); }
    i := x - y;
    assert i * size == x * size - y * size;
    if n <= i { Steps(i, i + 1, size); Scale(n, i, size); }
  }

  /** A fresh slab whose objects are threaded in address order. */
  lemma FreshSlabOk(pa: nat, size: nat, live: set<nat>, next: map<nat, nat>)
    requires IsSize(size) && pa > 0 && pa % PG_SIZE == 0
    requires forall a | a in live :: Floor(a) != pa
    requires forall i: nat {:trigger Linked(next, Objects(pa, size), i)} | i < NumOf(size) ::
               Linked(next, Objects(pa, size), i)
    ensures Objects(pa, size) != []
    ensures SlabOk(pa, SlabHead(false, size, NULL, Objects(pa, size)[0]), Objects(pa, size), live, next)
  {
    ClassTable(size);
    var s := Objects(pa, size);
    forall i: nat, j: nat | i < j < |s|
      ensures s[i] != s[j]
    {
      ObjectsIncrease(pa, size, i, j);
    }
    forall a | a in s
      ensures IsObject(pa, size, a)
    {
      var i: nat :| i < |s| && s[i] == a;
      ObjectsAt(pa, size, i);
    }
    forall a | IsObject(pa, size, a)
      ensures a !in live && a in s
    {
      ObjectPage(pa, size, a);
      ObjectsAll(pa, size, a);
    }
  }
}
