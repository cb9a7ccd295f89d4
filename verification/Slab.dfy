/** `kernel/pmm.c`: kmalloc and kfree, slabs over single pages of the buddy
    allocator and whole blocks for larger requests. Addresses are absolute; base
    is the page-aligned start of the arena. */
module Slab {
  import opened Arith
  import opened Bits
  import opened Pages
  import opened BuddySpec
  import opened BuddyLaws
  import opened Buddy
  import opened SlabSpec
  import opened SlabRuns

  ghost predicate PageHeld(h: nat, blocks: set<nat>, base: nat, pa: nat) {
    pa >= base && (pa - base) % PG_SIZE == 0 && Pow2(h) + (pa - base) / PG_SIZE in blocks
  }

  /** The slab at pa owns its page and is in order. */
  ghost predicate SlabAt(h: nat, blocks: set<nat>, base: nat, slabs: map<nat, SlabHead>, free: map<nat, seq<nat>>,
                         live: set<nat>, next: map<nat, nat>, pa: nat) {
    pa in slabs && pa in free && PageHeld(h, blocks, base, pa) && SlabOk(pa, slabs[pa], free[pa], live, next)
  }

  predicate InSlab(slabs: map<nat, SlabHead>, a: nat) {
    Floor(a) in slabs && IsObject(Floor(a), slabs[Floor(a)].size, a)
  }

  ghost predicate SlabsOk(h: nat, blocks: set<nat>, base: nat, slabs: map<nat, SlabHead>, free: map<nat, seq<nat>>,
                          live: set<nat>, next: map<nat, nat>) {
    && base > 0 && base % PG_SIZE == 0 && free.Keys == slabs.Keys
    && (forall pa {:trigger SlabAt(h, blocks, base, slabs, free, live, next, pa)} | pa in slabs ::
          SlabAt(h, blocks, base, slabs, free, live, next, pa))
    && (forall a {:trigger InSlab(slabs, a)} | a in live :: InSlab(slabs, a))
  }

  /** A cache has at most one slab, one with a free object. */
  ghost predicate CacheOk(c: nat, cache: KmemCache, slabs: map<nat, SlabHead>, free: map<nat, seq<nat>>) {
    var size := SizeOf(c);
    && size > 0 && cache.object_size == size && cache.object_num == NumOf(size) && cache.offset == OffOf(size)
    && (cache.slab_list == NULL
        || (cache.slab_list in slabs && cache.slab_list in free
            && slabs[cache.slab_list].size == size && free[cache.slab_list] != []))
  }

  ghost predicate CachesOk(caches: seq<KmemCache>, slabs: map<nat, SlabHead>, free: map<nat, seq<nat>>) {
    |caches| == CLASSES
    && forall c: nat {:trigger CacheOk(c, caches[c], slabs, free)} | c < CLASSES :: CacheOk(c, caches[c], slabs, free)
  }

  /* ---- transitions ---- */

  lemma HeldPage(base: nat, pa: nat)
    requires pa >= base && base % PG_SIZE == 0 && (pa - base) % PG_SIZE == 0
    ensures pa % PG_SIZE == 0 && pa == base + (pa - base) / PG_SIZE * PG_SIZE
  {
    InPage(base, 0);
    MultipleSum(base, pa - base, PG_SIZE);
  }

  /** The first free object of a slab goes out. */
  lemma TakeOk(h: nat, blocks: set<nat>, base: nat, slabs: map<nat, SlabHead>, free: map<nat, seq<nat>>,
               live: set<nat>, next: map<nat, nat>, pa: nat)
    requires SlabsOk(h, blocks, base, slabs, free, live, next) && pa in slabs && pa in free && free[pa] != []
    ensures var p := slabs[pa].freelist;
            && p == free[pa][0] && p in next && p !in live && p != NULL && Floor(p) == pa && p % PG_SIZE != 0
            && IsObject(pa, slabs[pa].size, p) && p % slabs[pa].size == 0
            && SlabsOk(h, blocks, base, slabs[pa := slabs[pa].(freelist := next[p])], free[pa := free[pa][1..]],
                       live + {p}, next)
            && (next[p] == NULL <==> free[pa][1..] == [])
  {
    hide SlabOk, IsObject, IsSize;
    assert SlabAt(h, blocks, base, slabs, free, live, next, pa);
    PopOk(pa, slabs[pa], free[pa], live, next);
    var p := slabs[pa].freelist;
    HeldPage(base, pa);
    SizeOk(pa, slabs[pa], free[pa], live, next);
    ObjectPage(pa, slabs[pa].size, p);
    var slabs', free' := slabs[pa := slabs[pa].(freelist := next[p])], free[pa := free[pa][1..]];
    forall q | q in slabs'
      ensures SlabAt(h, blocks, base, slabs', free', live + {p}, next, q)
    {
      assert SlabAt(h, blocks, base, slabs, free, live, next, q);
      HeldPage(base, q);
      if q != pa { OtherSlabOk(q, slabs[q], free[q], live, next, live + {p}, next, p, 0); }
    }
    forall a | a in live + {p}
      ensures InSlab(slabs', a)
    {
      if a in live { assert InSlab(slabs, a); }
    }
  }

  lemma SizeOk(pa: nat, head: SlabHead, free: seq<nat>, live: set<nat>, next: map<nat, nat>)
    requires SlabOk(pa, head, free, live, next)
    ensures IsSize(head.size) && head.size > 0 && !head.empty && head.next == NULL
  {
    ClassTable(head.size);
  }

  /** A live object goes back in front of its slab's list. */
  lemma GiveOk(h: nat, blocks: set<nat>, base: nat, slabs: map<nat, SlabHead>, free: map<nat, seq<nat>>,
               live: set<nat>, next: map<nat, nat>, p: nat)
    requires SlabsOk(h, blocks, base, slabs, free, live, next) && p in live
    ensures var pa := Floor(p);
            && pa in slabs && pa in free && !slabs[pa].empty
            && SlabsOk(h, blocks, base, slabs[pa := slabs[pa].(freelist := p)], free[pa := [p] + free[pa]],
                       live - {p}, next[p := slabs[pa].freelist])
  {
    hide SlabOk, IsObject, IsSize;
    var pa := Floor(p);
    assert InSlab(slabs, p);
    assert SlabAt(h, blocks, base, slabs, free, live, next, pa);
    HeldPage(base, pa);
    PushOk(pa, slabs[pa], free[pa], live, next, p);
    SizeOk(pa, slabs[pa], free[pa], live, next);
    var slabs', free', next' := slabs[pa := slabs[pa].(freelist := p)], free[pa := [p] + free[pa]],
        next[p := slabs[pa].freelist];
    forall q | q in slabs'
      ensures SlabAt(h, blocks, base, slabs', free', live - {p}, next', q)
    {
      assert SlabAt(h, blocks, base, slabs, free, live, next, q);
      HeldPage(base, q);
      if q != pa { OtherSlabOk(q, slabs[q], free[q], live, next, live - {p}, next', p, slabs[pa].freelist); }
    }
    forall a | a in live - {p}
      ensures InSlab(slabs', a)
    {
      assert InSlab(slabs, a);
    }
  }

  /** Pointers changed in page pa only. */
  ghost predicate OnlyIn(next: map<nat, nat>, next': map<nat, nat>, pa: nat) {
    forall a {:trigger SamePointer(next, next', a)} | a in next && Floor(a) != pa :: SamePointer(next, next', a)
  }

  predicate SamePointer(next: map<nat, nat>, next': map<nat, nat>, a: nat)
    requires a in next
  {
    a in next' && next'[a] == next[a]
  }

  lemma ElsewhereOk(q: nat, head: SlabHead, free: seq<nat>, live: set<nat>, next: map<nat, nat>, next': map<nat, nat>,
                    pa: nat)
    requires SlabOk(q, head, free, live, next) && q % PG_SIZE == 0 && q != pa && OnlyIn(next, next', pa)
    ensures SlabOk(q, head, free, live, next')
  {
    forall i: nat | i < |free|
      ensures Linked(next', free, i)
    {
      assert Linked(next, free, i) && free[i] in free;
      ObjectPage(q, head.size, free[i]);
      assert SamePointer(next, next', free[i]);
    }
  }

  lemma SlabHasPage(h: nat, blocks: set<nat>, base: nat, slabs: map<nat, SlabHead>, free: map<nat, seq<nat>>,
                    live: set<nat>, next: map<nat, nat>, pa: nat)
    requires SlabsOk(h, blocks, base, slabs, free, live, next) && pa in slabs
    ensures PageHeld(h, blocks, base, pa) && pa % PG_SIZE == 0 && pa > 0
  {
    hide SlabOk;
    assert SlabAt(h, blocks, base, slabs, free, live, next, pa);
    HeldPage(base, pa);
  }

  /** A page just taken from the buddy allocator becomes a slab. */
  lemma NewSlabOk(h: nat, blocks: set<nat>, base: nat, slabs: map<nat, SlabHead>, free: map<nat, seq<nat>>,
                  live: set<nat>, next: map<nat, nat>, next': map<nat, nat>, o: nat, size: nat)
    requires SlabsOk(h, blocks, base, slabs, free, live, next) && Pow2(h) + o !in blocks && IsSize(size)
    requires OnlyIn(next, next', base + o * PG_SIZE)
    requires Objects(base + o * PG_SIZE, size) != []
    requires forall i: nat {:trigger Linked(next', Objects(base + o * PG_SIZE, size), i)} |
               i < |Objects(base + o * PG_SIZE, size)| ::
               Linked(next', Objects(base + o * PG_SIZE, size), i)
    ensures var pa, s := base + o * PG_SIZE, Objects(base + o * PG_SIZE, size);
            && pa !in slabs && pa % PG_SIZE == 0
            && SlabsOk(h, blocks + {Pow2(h) + o}, base, slabs[pa := SlabHead(false, size, NULL, s[0])], free[pa := s],
                       live, next')
  {
    hide SlabOk, IsObject, IsSize, Objects;
    var pa, s := base + o * PG_SIZE, Objects(base + o * PG_SIZE, size);
    assert (pa - base) % PG_SIZE == 0 && (pa - base) / PG_SIZE == o;
    HeldPage(base, pa);
    if pa in slabs { SlabHasPage(h, blocks, base, slabs, free, live, next, pa); }
    forall a | a in live
      ensures Floor(a) != pa
    {
      assert InSlab(slabs, a);
    }
    ObjectsLength(pa, size);
    FreshSlabOk(pa, size, live, next');
    var slabs', free', blocks' := slabs[pa := SlabHead(false, size, NULL, s[0])], free[pa := s], blocks + {Pow2(h) + o};
    forall q | q in slabs'
      ensures SlabAt(h, blocks', base, slabs', free', live, next', q)
    {
      if q != pa {
        assert SlabAt(h, blocks, base, slabs, free, live, next, q);
        HeldPage(base, q);
        ElsewhereOk(q, slabs[q], free[q], live, next, next', pa);
      }
    }
    forall a | a in live
      ensures InSlab(slabs', a)
    {
      assert InSlab(slabs, a);
    }
  }

  lemma ObjectsLength(pa: nat, size: nat)
    requires IsSize(size)
    ensures size > 0 && |Objects(pa, size)| == NumOf(size)
  {
    ClassTable(size);
  }

  /** Blocks may come and go as long as the slab pages stay. */
  lemma BlocksChangeOk(h: nat, blocks: set<nat>, blocks': set<nat>, base: nat, slabs: map<nat, SlabHead>,
                       free: map<nat, seq<nat>>, live: set<nat>, next: map<nat, nat>)
    requires SlabsOk(h, blocks, base, slabs, free, live, next)
    requires forall pa | pa in slabs && PageHeld(h, blocks, base, pa) :: PageHeld(h, blocks', base, pa)
    ensures SlabsOk(h, blocks', base, slabs, free, live, next)
  {
    hide SlabOk;
    forall q | q in slabs
      ensures SlabAt(h, blocks', base, slabs, free, live, next, q)
    {
      assert SlabAt(h, blocks, base, slabs, free, live, next, q);
    }
  }

  /* ---- pages ---- */

  /** The block the buddy allocator hands out: a new node, at a page no live
      block covers. */
  lemma FreshNode(h: nat, blocks: set<nat>, n: nat) returns (i: nat)
    requires WellFormed(h, blocks) && n > 0 && AllocSpec(h, blocks, n).1 != -1
    ensures var (blocks', o) := AllocSpec(h, blocks, n);
            && i !in blocks && blocks' == blocks + {i} && IsNode(h, i) && Offset(h, i) == o
               && NodeSize(h, i) == RoundUp(n)
            && 0 <= o < Pow2(h) && !Covered(h, blocks, o)
  {
    AllocLowestFit(h, blocks, n);
    hide RoundUp, WellFormed, AllocSpec, Offset, NodeSize;
    var (blocks', o) := AllocSpec(h, blocks, n);
    i :| i !in blocks && blocks' == blocks + {i} && IsNode(h, i) && Offset(h, i) == o && NodeSize(h, i) == RoundUp(n);
    OffsetBounds(h, i);
  }

  lemma UnitNode(h: nat, i: nat)
    requires IsNode(h, i) && NodeSize(h, i) == 1
    ensures Offset(h, i) == i - Pow2(h)
  {
  }

  /** One page from the buddy allocator is one new leaf. */
  lemma OnePage(h: nat, blocks: set<nat>)
    requires WellFormed(h, blocks)
    ensures var (blocks', o) := AllocSpec(h, blocks, 1);
            o != -1 ==> 0 <= o < Pow2(h) && Pow2(h) + o !in blocks && blocks' == blocks + {Pow2(h) + o}
  {
    hide RoundUp, WellFormed, AllocSpec, Offset, NodeSize;
    if AllocSpec(h, blocks, 1).1 != -1 {
      var i := FreshNode(h, blocks, 1);
      RoundUpOne();
      UnitNode(h, i);
    }
  }

  lemma RoundUpOne()
    ensures RoundUp(1) == 1
  {
  }

  lemma FreeBlockAt(h: nat, blocks: set<nat>, l: nat)
    requires WellFormed(h, blocks) && l in blocks && IsNode(h, l)
    ensures 0 <= Offset(h, l) < Pow2(h) && FreeSpec(h, blocks, Offset(h, l)) == (blocks - {l}, NodeSize(h, l))
  {
    OffsetBounds(h, l);
    OwnerIsTheBlock(h, blocks, l, Offset(h, l));
  }

  /** Block l starts at address p. */
  predicate StartsAt(h: nat, base: nat, l: nat, p: nat) {
    IsNode(h, l) && p == base + Offset(h, l) * PG_SIZE
  }

  ghost predicate IsBlockPtr(h: nat, blocks: set<nat>, base: nat, pages: set<nat>, p: nat) {
    p !in pages && exists l {:trigger StartsAt(h, base, l, p)} :: l in blocks && StartsAt(h, base, l, p)
  }

  lemma BlockAligned(h: nat, base: nat, l: nat, p: nat)
    requires base > 0 && base % PG_SIZE == 0 && StartsAt(h, base, l, p)
    ensures 0 <= Offset(h, l) < Pow2(h) && p > 0 && p % PG_SIZE == 0 && (p - base) / PG_SIZE == Offset(h, l)
  {
    OffsetBounds(h, l);
    hide Offset;
    var o: nat := Offset(h, l);
    PageOfOffset(base, o);
  }

  lemma PageOfOffset(base: nat, o: nat)
    requires base > 0 && base % PG_SIZE == 0
    ensures var p := base + o * PG_SIZE; p > 0 && p % PG_SIZE == 0 && (p - base) / PG_SIZE == o
  {
  }

  /** Two live blocks do not start at one address. */
  lemma OneBlockAt(h: nat, blocks: set<nat>, base: nat, a: nat, b: nat, p: nat)
    requires WellFormed(h, blocks) && a in blocks && b in blocks && StartsAt(h, base, a, p) && StartsAt(h, base, b, p)
    ensures a == b
  {
    assert Offset(h, a) == Offset(h, b);
    if a != b { Apart(h, blocks, a, b); }
  }

  lemma BlockCovers(h: nat, blocks: set<nat>, l: nat)
    requires l in blocks && IsNode(h, l)
    ensures 0 <= Offset(h, l) && Covered(h, blocks, Offset(h, l))
  {
    OffsetBounds(h, l);
    PagesOfNode(h, l, Offset(h, l));
  }

  /** A fresh block adds exactly one pointer, to an address that was no block and
      no slab. */
  lemma FreshBlock(h: nat, blocks: set<nat>, base: nat, pages: set<nat>, n: nat)
    requires WellFormed(h, blocks) && n > 0 && AllocSpec(h, blocks, n).1 != -1 && base > 0 && base % PG_SIZE == 0
    requires forall pa | pa in pages :: PageHeld(h, blocks, base, pa)
    ensures var (blocks', o) := AllocSpec(h, blocks, n);
            && o >= 0
            && var ptr := base + o * PG_SIZE;
               && ptr !in pages && !IsBlockPtr(h, blocks, base, pages, ptr) && ptr % PG_SIZE == 0
               && (forall p: nat ::
                     IsBlockPtr(h, blocks', base, pages, p) <==> IsBlockPtr(h, blocks, base, pages, p) || p == ptr)
               && (forall pa | pa in pages :: PageHeld(h, blocks', base, pa))
  {
    hide RoundUp, WellFormed, AllocSpec, Offset, NodeSize, Covered;
    var i := FreshNode(h, blocks, n);
    var o: nat, blocks' := AllocSpec(h, blocks, n).1, AllocSpec(h, blocks, n).0;
    var ptr := base + o * PG_SIZE;
    BlockAligned(h, base, i, ptr);
    if ptr in pages {
      LeafCovers(h, blocks, o);
    }
    forall l | l in blocks && StartsAt(h, base, l, ptr)
      ensures false
    {
      BlockCovers(h, blocks, l);
    }
    forall p: nat
      ensures IsBlockPtr(h, blocks', base, pages, p) <==> IsBlockPtr(h, blocks, base, pages, p) || p == ptr
    {
      assert StartsAt(h, base, i, p) <==> p == ptr;
    }
  }

  lemma AllocFails(h: nat, blocks: set<nat>, n: nat)
    requires WellFormed(h, blocks) && n > 0
    ensures AllocSpec(h, blocks, n).1 == -1 ==> AllocSpec(h, blocks, n).0 == blocks
  {
    AllocLowestFit(h, blocks, n);
  }

  /** The page before the arena is neither a block nor a slab. */
  lemma BeforeArena(h: nat, blocks: set<nat>, base: nat, pages: set<nat>)
    requires base > 0 && base % PG_SIZE == 0
    ensures base >= PG_SIZE && (base - PG_SIZE) % PG_SIZE == 0 && !IsBlockPtr(h, blocks, base, pages, base - PG_SIZE)
  {
    forall l | l in blocks && StartsAt(h, base, l, base - PG_SIZE)
      ensures false
    {
      OffsetBounds(h, l);
    }
  }

  lemma LeafCovers(h: nat, blocks: set<nat>, q: nat)
    requires Pow2(h) + q in blocks
    ensures Covered(h, blocks, q)
  {
    assert Anc(Pow2(h) + q, Pow2(h) + q);
  }

  /** A block given back takes away exactly its pointer. */
  lemma GoneBlock(h: nat, blocks: set<nat>, base: nat, pages: set<nat>, l: nat, ptr: nat)
    requires WellFormed(h, blocks) && base > 0 && base % PG_SIZE == 0 && l in blocks && StartsAt(h, base, l, ptr)
    requires ptr !in pages && forall pa | pa in pages :: PageHeld(h, blocks, base, pa)
    ensures forall p: nat ::
              IsBlockPtr(h, blocks - {l}, base, pages, p) <==> IsBlockPtr(h, blocks, base, pages, p) && p != ptr
    ensures forall pa | pa in pages :: PageHeld(h, blocks - {l}, base, pa)
  {
    forall p: nat
      ensures IsBlockPtr(h, blocks - {l}, base, pages, p) <==> IsBlockPtr(h, blocks, base, pages, p) && p != ptr
    {
      assert StartsAt(h, base, l, p) ==> p == ptr;
      forall m | m in blocks - {l} && StartsAt(h, base, m, ptr)
        ensures false
      {
        OneBlockAt(h, blocks, base, l, m, ptr);
      }
    }
    forall pa | pa in pages
      ensures PageHeld(h, blocks - {l}, base, pa)
    {
      if Pow2(h) + (pa - base) / PG_SIZE == l {
        HeldPage(base, pa);
        LeafStart(h, blocks, (pa - base) / PG_SIZE);
      }
    }
  }

  lemma LeafStart(h: nat, blocks: set<nat>, q: nat)
    requires WellFormed(h, blocks) && Pow2(h) + q in blocks
    ensures IsNode(h, Pow2(h) + q) && Offset(h, Pow2(h) + q) == q
  {
    LeafRange(h, q);
    LeafOfPage(h, q);
  }

  lemma LeafRange(h: nat, q: nat)
    requires IsNode(h, Pow2(h) + q)
    ensures q < Pow2(h)
  {
    LenBounds(Pow2(h) + q);
    Pow2Pos(h + 1);
    if Len(Pow2(h) + q) < h + 1 { Pow2Increasing(Len(Pow2(h) + q), h + 1); }
  }

  /** c is the smallest class whose objects hold size bytes. */
  ghost predicate IsClassOf(size: int, c: nat) {
    size <= SizeOf(c) && forall j: nat | j < c :: size > SizeOf(j)
  }

  /** PG_CEIL(size) in pages. */
  function PagesFor(size: int): nat
    requires size > 0
  {
    (size + PG_SIZE - 1) / PG_SIZE
  }

  /** The block at ptr is the smallest power of two of pages that holds size bytes. */
  ghost predicate HoldsSize(h: nat, blocks: set<nat>, base: nat, ptr: nat, size: nat) {
    exists l {:trigger StartsAt(h, base, l, ptr)} ::
      && l in blocks && StartsAt(h, base, l, ptr) && size <= NodeSize(h, l) * PG_SIZE
      && forall k: nat :: size <= Pow2(k) * PG_SIZE ==> NodeSize(h, l) <= Pow2(k)
  }

  lemma PagesLeast(size: nat, p: nat)
    requires size > 0
    ensures size <= p * PG_SIZE <==> PagesFor(size) <= p
  {
  }

  lemma LargeFits(h: nat, live: set<nat>, base: nat, size: nat)
    requires WellFormed(h, live) && size > 0 && AllocSpec(h, live, PagesFor(size)).1 != -1
    ensures var (blocks, o) := AllocSpec(h, live, PagesFor(size));
            o >= 0 && HoldsSize(h, blocks, base, base + o * PG_SIZE, size)
  {
    hide AllocSpec, WellFormed, RoundUp, NodeSize, Offset, FreeBlock, PagesFor, Pow2;
    var n := PagesFor(size);
    PagesLeast(size, 0);
    var l := FreshNode(h, live, n);
    RoundedHolds(size);
    assert StartsAt(h, base, l, base + AllocSpec(h, live, n).1 * PG_SIZE);
  }

  lemma RoundedHolds(size: nat)
    requires size > 0 && PagesFor(size) > 0
    ensures size <= RoundUp(PagesFor(size)) * PG_SIZE
    ensures forall k: nat :: size <= Pow2(k) * PG_SIZE ==> RoundUp(PagesFor(size)) <= Pow2(k)
  {
    hide RoundUp, PagesFor, Pow2;
    var n := PagesFor(size);
    RoundUpLeast(n);
    PagesLeast(size, RoundUp(n));
    forall k: nat | size <= Pow2(k) * PG_SIZE
      ensures RoundUp(n) <= Pow2(k)
    {
      PagesLeast(size, Pow2(k));
    }
  }

  class SlabAllocator {
    const buddy: BuddyAllocator
    const base: nat
    const caches: array<KmemCache>
    var slabs: map<nat, SlabHead>     // slab headers by page address
    var next: map<nat, nat>           // the next pointer in each free object
    ghost var free: map<nat, seq<nat>>
    ghost var live: set<nat>          // objects handed out

    ghost predicate Valid()
      reads this, buddy, buddy.tree, caches
    {
      && buddy.Valid() && SlabsOk(buddy.h, buddy.live, base, slabs, free, live, next)
      && CachesOk(caches[..], slabs, free)
    }

    /** `init_kmem_cache`. */
    constructor (buddy: BuddyAllocator, base: nat)
      requires buddy.Valid() && base > 0 && base % PG_SIZE == 0
      ensures Valid() && fresh(caches) && this.buddy == buddy && this.base == base && live == {} && slabs == map[]
    {
      this.buddy, this.base := buddy, base;
      caches := new KmemCache[CLASSES](_ => KmemCache(0, 0, 0, NULL));
      slabs, next, free, live := map[], map[], map[], {};
      new;
      hide BuddyAllocator.Valid;
      PowTable();
      var i: nat, size := 0, 8;
      while i < CLASSES
        invariant i <= CLASSES && size == SizeOf(i) && buddy.Valid() && this.buddy == buddy && this.base == base
        invariant slabs == map[] && free == map[] && next == map[] && live == {} && fresh(caches)
        invariant forall c: nat {:trigger CacheOk(c, caches[c], slabs, free)} | c < i ::
                  CacheOk(c, caches[c], slabs, free)
      {
        assert IsSize(size);
        ClassTable(size);
        caches[i] := KmemCache(size, (PG_SIZE - HEADER) / size, PG_SIZE - (PG_SIZE - HEADER) / size * size, NULL);
        i, size := i + 1, size * 2;
      }
    }

    /** `get_kmem_cache_index`; the loop tries one class too many. */
    method CacheIndex(size: int) returns (r: int)
      ensures r == -1 || (0 <= r <= CLASSES && IsClassOf(size, r))
      ensures r == -1 <==> size > SizeOf(CLASSES)
      ensures size <= MAX_OBJECT ==> 0 <= r < CLASSES
    {
      PowTable();
      var i: nat, bound := 0, 8;
      while i <= CLASSES
        invariant i <= CLASSES + 1 && bound == SizeOf(i) && forall j: nat | j < i :: size > SizeOf(j)
      {
        if size <= bound {
          assert i == CLASSES ==> size > SizeOf(8);
          return i;
        }
        i, bound := i + 1, bound * 2;
      }
      return -1;
    }

    /** `alloc_slab`: a page whose objects are threaded in address order. */
    method AllocSlab(size: nat, offset: nat, num: nat) returns (slab: nat)
      requires Valid() && IsSize(size) && size > 0 && num == NumOf(size) && offset == OffOf(size)
      requires AllocSpec(buddy.h, buddy.live, 1).1 != -1
      modifies this`slabs, this`next, this`free, buddy.tree, buddy`live
      ensures Valid()
      ensures var (blocks, o) := AllocSpec(buddy.h, old(buddy.live), 1);
              buddy.live == blocks && o >= 0 && slab == base + o * PG_SIZE && slab !in old(slabs)
      ensures Objects(slab, size) != [] && slab > 0
      ensures slabs == old(slabs)[slab := SlabHead(false, size, NULL, Objects(slab, size)[0])]
      ensures free == old(free)[slab := Objects(slab, size)]
    {
      hide BuddyAllocator.Valid, SlabsOk, CachesOk, AllocSpec, WellFormed, OnlyIn, IsSize, Objects;
      Facts();
      OnePage(buddy.h, buddy.live);
      ghost var blocks, n0 := buddy.live, next;
      var o := buddy.Alloc(1);
      slab := base + o * PG_SIZE;
      InPage(slab, 0);
      MultipleSum(base, o * PG_SIZE, PG_SIZE);
      ThreadObjects(slab, size, offset, num);
      NewSlabOk(buddy.h, blocks, base, slabs, free, live, n0, next, o, size);
      CachesKept(caches[..], slabs, free, slab, SlabHead(false, size, NULL, slab + offset), Objects(slab, size));
      slabs := slabs[slab := SlabHead(false, size, NULL, slab + offset)];
      free := free[slab := Objects(slab, size)];
    }

    /** Its loop. */
    method ThreadObjects(slab: nat, size: nat, offset: nat, num: nat)
      requires IsSize(size) && size > 0 && num == NumOf(size) && offset == OffOf(size) && slab % PG_SIZE == 0
               && slab > 0
      modifies this`next
      ensures OnlyIn(old(next), next, slab)
      ensures |Objects(slab, size)| == num > 0 && Objects(slab, size)[0] == slab + offset
      ensures forall i: nat {:trigger Linked(next, Objects(slab, size), i)} | i < num ::
              Linked(next, Objects(slab, size), i)
    {
      hide Objects, IsSize, IsObject;
      ObjectsLength(slab, size);
      ClassTable(size);
      ghost var s := Objects(slab, size);
      var i: nat := 0;
      while i < num
        invariant i <= num && OnlyIn(old(next), next, slab)
        invariant forall j: nat {:trigger Linked(next, s, j)} | j < i :: Linked(next, s, j)
      {
        ObjectsAt(slab, size, i);
        ObjectPage(slab, size, s[i]);
        if i + 1 < num { ObjectsAt(slab, size, i + 1); }
        NextObject(slab, offset, i, size);
        ghost var was := next;
        next := next[slab + offset + i * size := if i == num - 1 then NULL else slab + offset + (i + 1) * size];
        forall j: nat | j < i + 1
          ensures Linked(next, s, j)
        {
          if j < i {
            ObjectsIncrease(slab, size, j, i);
            assert Linked(was, s, j);
          }
        }
        StillOnly(old(next), was, next, slab, s[i]);
        i := i + 1;
      }
      ObjectsAt(slab, size, 0);
    }

    /** A pointer to a block of the buddy allocator that is no slab. */
    ghost predicate BlockPtr(p: nat)
      reads this, buddy
    {
      IsBlockPtr(buddy.h, buddy.live, base, slabs.Keys, p)
    }

    /** A pointer that kmalloc returned and kfree has not taken back. */
    ghost predicate Issued(p: nat)
      reads this, buddy
    {
      p in live || BlockPtr(p)
    }

    /** Current slabs, free lists and object sizes. */
    ghost function State(): Pools
      reads this, caches
    {
      StateOf(caches[..], free, slabs)
    }

    /** `kmalloc_object`: the first free object of the cache's slab, or of a new
        one; the slab leaves the cache with its last object. */
    method KmallocObject(c: nat) returns (ptr: nat)
      requires Valid() && c < CLASSES
      requires caches[c].slab_list == NULL ==> AllocSpec(buddy.h, buddy.live, 1).1 != -1
      modifies this`slabs, this`next, this`free, this`live, caches, buddy.tree, buddy`live
      ensures Valid() && ptr !in old(live) && live == old(live) + {ptr} && ptr > 0
      ensures Floor(ptr) in slabs && slabs[Floor(ptr)].size == SizeOf(c) > 0 && ptr % SizeOf(c) == 0
              && ptr % PG_SIZE != 0
      ensures if old(caches[c].slab_list) != NULL
              then slabs.Keys == old(slabs).Keys && buddy.live == old(buddy.live)
                   && Floor(ptr) == old(caches[c].slab_list)
              else (var (blocks, o) := AllocSpec(buddy.h, old(buddy.live), 1);
                    buddy.live == blocks && o >= 0 && Floor(ptr) == base + o * PG_SIZE && Floor(ptr) !in old(slabs)
                    && slabs.Keys == old(slabs).Keys + {Floor(ptr)})
      ensures PoolsOk(old(State())) && CanDo(old(State()), SlabRuns.Alloc(c, Floor(ptr)))
      ensures (State(), ptr) == Take(old(State()), c, Floor(ptr))
      ensures forall pa | pa in old(slabs) :: pa in slabs && slabs[pa].size == old(slabs[pa].size)
    {
      hide BuddyAllocator.Valid, SlabsOk, AllocSpec, Objects, IsObject, Floor, CanDo, Take, PoolsOk, StateOf;
      Facts();
      assert CacheOk(c, caches[..][c], slabs, free);
      SizeIs(c);
      StateOk();
      ghost var caches0, free0, slabs0, buddy0 := caches[..], free, slabs, buddy.live;
      if caches[c].slab_list == NULL {
        ghost var was := caches[..];
        var slab := AllocSlab(caches[c].object_size, caches[c].offset, caches[c].object_num);
        caches[c] := caches[c].(slab_list := slab);
        assert caches[..] == was[c := caches[c]];
        ListSet(was, slabs, free, c, slab);
      }
      ghost var list := free[caches[c].slab_list];
      ptr := PopObject(c);
      if caches0[c].slab_list == NULL { NewPage(buddy.h, buddy0, base, slabs0, Floor(ptr)); }
      Taken(caches0, free0, slabs0, caches[..], free, slabs, c, Floor(ptr), list);
    }

    /** The caches and lists are in order. */
    lemma StateOk()
      requires Valid()
      ensures PoolsOk(State())
    {
      hide BuddyAllocator.Valid, SlabOk;
      Facts();
      assert forall c: nat | c < CLASSES :: CacheOk(c, caches[..][c], slabs, free);
      forall pa | pa in free
        ensures InPageOf(State(), pa)
      {
        assert SlabAt(buddy.h, buddy.live, base, slabs, free, live, next, pa);
        HeldPage(base, pa);
        FreePages(pa, slabs[pa], free[pa], live, next);
      }
    }

    /** Its second half. */
    method PopObject(c: nat) returns (ptr: nat)
      requires Valid() && c < CLASSES && caches[c].slab_list != NULL && IsSize(SizeOf(c)) && SizeOf(c) > 0
      modifies this`slabs, this`free, this`live, caches
      ensures Valid() && ptr !in old(live) && live == old(live) + {ptr} && ptr > 0
      ensures Floor(ptr) == old(caches[c].slab_list) && ptr % SizeOf(c) == 0 && ptr % PG_SIZE != 0
      ensures slabs.Keys == old(slabs).Keys && Floor(ptr) in slabs && slabs[Floor(ptr)].size == SizeOf(c)
      ensures forall pa | pa in old(slabs) :: pa in slabs && slabs[pa].size == old(slabs[pa].size)
      ensures Floor(ptr) in old(free) && old(free)[Floor(ptr)] != [] && ptr == old(free)[Floor(ptr)][0]
      ensures free == old(free)[Floor(ptr) := old(free)[Floor(ptr)][1..]]
      ensures caches[..] == if free[Floor(ptr)] == [] then old(caches[..])[c := old(caches[c]).(slab_list := NULL)]
                            else old(caches[..])
    {
      hide BuddyAllocator.Valid, SlabsOk, IsObject, Floor;
      Facts();
      assert CacheOk(c, caches[..][c], slabs, free);
      var slab := caches[c].slab_list;
      ghost var was, list := caches[..], free[slab];
      TakeOk(buddy.h, buddy.live, base, slabs, free, live, next, slab);
      Solo(buddy.h, buddy.live, base, slabs, free, live, next, slab);
      ptr := slabs[slab].freelist;
      PopCaches(was, slabs, free, c, slab, next[ptr]);
      slabs := slabs[slab := slabs[slab].(freelist := next[ptr])];
      free := free[slab := list[1..]];
      live := live + {ptr};
      if slabs[slab].freelist == NULL {
        caches[c] := caches[c].(slab_list := slabs[slab].next);
      }
      assert caches[..] == if next[ptr] == NULL then was[c := was[c].(slab_list := NULL)] else was;
    }

    /** `kfree_object`. The slab is linked into its cache only if it was marked
        empty, which no slab ever is. */
    method KfreeObject(ptr: nat)
      requires Valid() && ptr in live
      modifies this`slabs, this`next, this`free, this`live
      ensures Valid() && live == old(live) - {ptr} && slabs.Keys == old(slabs).Keys
      ensures forall pa | pa in slabs :: slabs[pa].size == old(slabs[pa].size)
      ensures Floor(ptr) in old(State()).free && State() == Give(old(State()), ptr)
    {
      hide BuddyAllocator.Valid, SlabsOk, IsObject, Floor;
      Facts();
      var slab := Floor(ptr);
      GiveOk(buddy.h, buddy.live, base, slabs, free, live, next, ptr);
      CachesKept(caches[..], slabs, free, slab, slabs[slab].(freelist := ptr), [ptr] + free[slab]);
      next := next[ptr := slabs[slab].freelist];
      slabs := slabs[slab := slabs[slab].(freelist := ptr)];
      free := free[slab := [ptr] + free[slab]];
      live := live - {ptr};
      assert Sizes(slabs) == Sizes(old(slabs));
      assert !slabs[slab].empty;
    }

    /** A request that needs a page for a slab finds one. */
    ghost predicate CanServe(size: int)
      reads this, buddy, caches
    {
      forall c: nat | c < CLASSES && c < caches.Length && IsClassOf(size, c) && caches[c].slab_list == NULL ::
        AllocSpec(buddy.h, buddy.live, 1).1 != -1
    }

    /** `palloc_n`. A failure of the buddy allocator is not noticed: the address
        of the page before the arena comes back. */
    method PallocN(n: nat) returns (ptr: nat)
      requires Valid() && 0 < n <= MAX_INT
      modifies buddy.tree, buddy`live
      ensures Valid() && !old(BlockPtr(ptr)) && ptr % PG_SIZE == 0 && ptr !in slabs
      ensures var (blocks, o) := AllocSpec(buddy.h, old(buddy.live), n);
              && buddy.live == blocks && ptr == base + o * PG_SIZE
              && forall p: nat :: BlockPtr(p) <==> old(BlockPtr(p)) || (o != -1 && p == ptr)
    {
      hide BuddyAllocator.Valid, SlabsOk, CachesOk, AllocSpec, WellFormed, Floor, IsBlockPtr;
      Facts();
      NoneAligned();
      ghost var blocks, pages := buddy.live, slabs.Keys;
      AllocFails(buddy.h, blocks, n);
      if AllocSpec(buddy.h, blocks, n).1 != -1 {
        FreshBlock(buddy.h, blocks, base, pages, n);
      } else {
        BeforeArena(buddy.h, blocks, base, pages);
      }
      var o := buddy.Alloc(n);
      BlocksChangeOk(buddy.h, blocks, buddy.live, base, slabs, free, live, next);
      ptr := base + o * PG_SIZE;
    }

    /** `kmalloc`. */
    method Kmalloc(size: int) returns (ptr: nat)
      requires Valid() && size + PG_SIZE <= MAX_INT && CanServe(size)
      modifies this`slabs, this`next, this`free, this`live, caches, buddy.tree, buddy`live
      ensures Valid() && !old(Issued(ptr))
      ensures var failed := size > MAX_OBJECT && AllocSpec(buddy.h, old(buddy.live), PagesFor(size)).1 == -1;
              && (failed ==> ptr == base - PG_SIZE)
              && forall p: nat :: Issued(p) <==> old(Issued(p)) || (!failed && p == ptr)
      ensures ptr % PG_SIZE == 0 <==> size > MAX_OBJECT
      ensures size <= MAX_OBJECT ==>
                && ptr in live && Floor(ptr) in slabs && slabs[Floor(ptr)].size > 0 && ptr % slabs[Floor(ptr)].size == 0
                && PoolsOk(old(State()))
                && exists c: nat {:trigger IsClassOf(size, c)} :: && IsClassOf(size, c) && c < CLASSES
                     && slabs[Floor(ptr)].size == SizeOf(c) && (State(), ptr) == Take(old(State()), c, Floor(ptr))
      ensures size > MAX_OBJECT ==>
                && (var (blocks, o) := AllocSpec(buddy.h, old(buddy.live), PagesFor(size));
                    buddy.live == blocks && ptr == base + o * PG_SIZE)
                && live == old(live) && slabs == old(slabs) && State() == old(State())
      ensures size > MAX_OBJECT && ptr != base - PG_SIZE ==> HoldsSize(buddy.h, buddy.live, base, ptr, size)
    {
      hide BuddyAllocator.Valid, SlabsOk, CachesOk, IsObject, AllocSpec, WellFormed, IsClassOf, Floor, IsBlockPtr,
           StateOf,
           Take, PoolsOk, CanDo, HoldsSize;
      Facts();
      NoneAligned();
      ghost var blocks, pages := buddy.live, slabs.Keys;
      if size > MAX_OBJECT {
        if AllocSpec(buddy.h, buddy.live, PagesFor(size)).1 != -1 { LargeFits(buddy.h, buddy.live, base, size); }
        ptr := PallocN(PagesFor(size));
      } else {
        var c := CacheIndex(size);
        ghost var grows := caches[c].slab_list == NULL;
        ptr := KmallocObject(c);
        if grows {
          FreshBlock(buddy.h, blocks, base, pages, 1);
          PageAdded(buddy.h, blocks, buddy.live, base, pages, Floor(ptr));
        }
      }
    }

    /** `pfree`: the page index is what the address says. */
    method Pfree(ptr: nat)
      requires Valid() && BlockPtr(ptr)
      modifies buddy.tree, buddy`live
      ensures Valid() && forall p: nat :: Issued(p) <==> old(Issued(p)) && p != ptr
      ensures exists l {:trigger StartsAt(buddy.h, base, l, ptr)} ::
                l in old(buddy.live) && StartsAt(buddy.h, base, l, ptr) && buddy.live == old(buddy.live) - {l}
    {
      hide BuddyAllocator.Valid, SlabsOk, CachesOk, WellFormed, FreeSpec;
      Facts();
      NoneAligned();
      ghost var blocks := buddy.live;
      ghost var l :| l in blocks && StartsAt(buddy.h, base, l, ptr);
      BlockAligned(buddy.h, base, l, ptr);
      FreeBlockAt(buddy.h, blocks, l);
      GoneBlock(buddy.h, blocks, base, slabs.Keys, l, ptr);
      ArenaSize();
      var freed := buddy.Free((ptr - base) / PG_SIZE);
      BlocksChangeOk(buddy.h, blocks, buddy.live, base, slabs, free, live, next);
    }

    /** `kfree`: the low bits of the address choose the allocator, always the one
        that issued the pointer. */
    method Kfree(ptr: nat)
      requires Valid() && Issued(ptr)
      modifies this`slabs, this`next, this`free, this`live, buddy.tree, buddy`live
      ensures Valid() && forall p: nat :: Issued(p) <==> old(Issued(p)) && p != ptr
      ensures old(ptr in live) ==>
                && live == old(live) - {ptr} && buddy.live == old(buddy.live)
                && Floor(ptr) in old(State()).free && State() == Give(old(State()), ptr)
      ensures !old(ptr in live) ==> && live == old(live) && slabs == old(slabs) && next == old(next)
                                    && exists l {:trigger StartsAt(buddy.h, base, l, ptr)} ::
                                         l in old(buddy.live) && StartsAt(buddy.h, base, l, ptr)
                                         && buddy.live == old(buddy.live) - {l}
    {
      hide BuddyAllocator.Valid, SlabsOk, CachesOk, WellFormed, IsBlockPtr;
      Facts();
      NoneAligned();
      if ptr % PG_SIZE == 0 {
        Pfree(ptr);
      } else {
        KfreeObject(ptr);
      }
    }

    /** The address test of kfree tells objects from blocks. */
    lemma NoneAligned()
      requires Valid()
      ensures forall p | p in live :: p % PG_SIZE != 0
      ensures forall p: nat | BlockPtr(p) :: p % PG_SIZE == 0 && p > 0
      ensures forall pa | pa in slabs :: PageHeld(buddy.h, buddy.live, base, pa)
    {
      hide BuddyAllocator.Valid, CachesOk, WellFormed, SlabOk, IsObject;
      forall p | p in live
        ensures p % PG_SIZE != 0
      {
        assert InSlab(slabs, p);
        var pa := Floor(p);
        assert SlabAt(buddy.h, buddy.live, base, slabs, free, live, next, pa);
        HeldPage(base, pa);
        SizeOk(pa, slabs[pa], free[pa], live, next);
        ObjectPage(pa, slabs[pa].size, p);
      }
      forall p: nat | BlockPtr(p)
        ensures p % PG_SIZE == 0 && p > 0
      {
        var l :| l in buddy.live && StartsAt(buddy.h, base, l, p);
        BlockAligned(buddy.h, base, l, p);
      }
      forall pa | pa in slabs
        ensures PageHeld(buddy.h, buddy.live, base, pa)
      {
        assert SlabAt(buddy.h, buddy.live, base, slabs, free, live, next, pa);
      }
    }

    /** Live objects do not overlap. */
    lemma ObjectsDisjoint(p: nat, q: nat)
      requires Valid() && p in live && q in live && p < q
      ensures Floor(p) in slabs && p + slabs[Floor(p)].size <= q
    {
      hide BuddyAllocator.Valid, CachesOk, SlabOk;
      ObjectFacts(p);
      ObjectFacts(q);
      if Floor(p) == Floor(q) { ObjectsApart(Floor(p), slabs[Floor(p)].size, p, q); } else { PagesApart(p, q); }
    }

    lemma ObjectFacts(p: nat)
      requires Valid() && p in live
      ensures var pa := Floor(p);
              && pa in slabs && pa in free && IsObject(pa, slabs[pa].size, p) && IsSize(slabs[pa].size)
              && SlabOk(pa, slabs[pa], free[pa], live, next) && PageHeld(buddy.h, buddy.live, base, pa)
    {
      hide BuddyAllocator.Valid, CachesOk;
      assert InSlab(slabs, p);
      assert SlabAt(buddy.h, buddy.live, base, slabs, free, live, next, Floor(p));
    }

    /** A live object lies outside every block that is no slab. */
    lemma ObjectOffBlocks(p: nat, l: nat, q: nat)
      requires Valid() && p in live && l in buddy.live && StartsAt(buddy.h, base, l, q) && q !in slabs
      ensures Floor(p) in slabs
      ensures p + slabs[Floor(p)].size <= q || q + NodeSize(buddy.h, l) * PG_SIZE <= p
    {
      hide CachesOk, SlabOk, IsSize, Offset, NodeSize, SlabsOk;
      Facts();
      ObjectFacts(p);
      var pa := Floor(p);
      var k: nat := (pa - base) / PG_SIZE;
      var f := Pow2(buddy.h) + k;
      HeldPage(base, pa);
      LeafStart(buddy.h, buddy.live, k);
      LeafRange(buddy.h, k);
      LeafOfPage(buddy.h, k);
      assert StartsAt(buddy.h, base, f, pa);
      Apart(buddy.h, buddy.live, f, l);
    }

    /** Conservation: the objects of a slab are its live ones and its free ones. */
    lemma Conservation(pa: nat)
      requires Valid() && pa in slabs
      ensures pa in free && slabs[pa].size > 0
      ensures |set a | a in live && Floor(a) == pa| + |free[pa]| == NumOf(slabs[pa].size)
    {
      hide BuddyAllocator.Valid, CachesOk, IsObject, Objects;
      assert SlabAt(buddy.h, buddy.live, base, slabs, free, live, next, pa);
      HeldPage(base, pa);
      var size := slabs[pa].size;
      SizeOk(pa, slabs[pa], free[pa], live, next);
      var all, rest := Objects(pa, size), Elements(free[pa]);
      var out := set a | a in live && Floor(a) == pa;
      ObjectsLength(pa, size);
      forall i: nat, j: nat | i < j < |all|
        ensures all[i] != all[j]
      {
        ObjectsIncrease(pa, size, i, j);
      }
      forall a
        ensures a in Elements(all) <==> a in out + rest
      {
        WhichObject(pa, size, a);
        if a in live { assert InSlab(slabs, a); }
      }
      assert Elements(all) == out + rest;
      forall a | a in out
        ensures a !in rest
      {
        assert InSlab(slabs, a);
      }
      DistinctCount(all);
      DistinctCount(free[pa]);
    }

    lemma ArenaSize()
      requires Valid()
      ensures buddy.size == Pow2(buddy.h)
    {
    }

    lemma Facts()
      requires Valid()
      ensures WellFormed(buddy.h, buddy.live) && caches.Length == CLASSES && base > 0 && base % PG_SIZE == 0
      ensures SlabsOk(buddy.h, buddy.live, base, slabs, free, live, next) && CachesOk(caches[..], slabs, free)
    {
    }
  }

  function Sizes(slabs: map<nat, SlabHead>): map<nat, nat> { map pa | pa in slabs :: slabs[pa].size }

  function StateOf(caches: seq<KmemCache>, free: map<nat, seq<nat>>, slabs: map<nat, SlabHead>): Pools {
    Pools(seq<nat>(|caches|, c requires 0 <= c < |caches| => caches[c].slab_list), free, Sizes(slabs))
  }

  lemma FreePages(pa: nat, head: SlabHead, free: seq<nat>, live: set<nat>, next: map<nat, nat>)
    requires SlabOk(pa, head, free, live, next) && pa % PG_SIZE == 0
    ensures forall a | a in free :: Floor(a) == pa
  {
    forall a | a in free
      ensures Floor(a) == pa
    {
      ObjectPage(pa, head.size, a);
    }
  }

  /** The page of a new slab is a page. */
  lemma NewPage(h: nat, blocks: set<nat>, base: nat, slabs: map<nat, SlabHead>, pa: nat)
    requires base > 0 && base % PG_SIZE == 0 && AllocSpec(h, blocks, 1).1 >= 0
             && pa == base + AllocSpec(h, blocks, 1).1 * PG_SIZE
    ensures PageAddress(pa)
  {
    hide AllocSpec;
    var o: nat := AllocSpec(h, blocks, 1).1;
    MultipleSum(base, o * PG_SIZE, PG_SIZE);
  }

  /** What a request did is what `Take` says. */
  lemma Taken(caches: seq<KmemCache>, free: map<nat, seq<nat>>, slabs: map<nat, SlabHead>,
              caches': seq<KmemCache>, free': map<nat, seq<nat>>, slabs': map<nat, SlabHead>,
              c: nat, pa: nat, list: seq<nat>)
    requires PoolsOk(StateOf(caches, free, slabs)) && c < CLASSES == |caches| && IsSize(SizeOf(c)) && list != []
    requires if caches[c].slab_list == NULL then PageAddress(pa) && pa !in free && list == Objects(pa, SizeOf(c))
             else caches[c].slab_list == pa && pa in free && list == free[pa]
    requires caches' == caches[c := caches[c].(slab_list := if list[1..] == [] then NULL else pa)]
    requires free' == free[pa := list[1..]] && slabs'.Keys == slabs.Keys + {pa} && slabs'[pa].size == SizeOf(c)
    requires forall q | q in slabs :: slabs'[q].size == slabs[q].size
    ensures CanDo(StateOf(caches, free, slabs), SlabRuns.Alloc(c, pa))
    ensures (StateOf(caches', free', slabs'), list[0]) == Take(StateOf(caches, free, slabs), c, pa)
  {
    hide Objects, SizeOf, IsSize;
    var s, t := StateOf(caches, free, slabs), StateOf(caches', free', slabs');
    assert t.cur == s.cur[c := if list[1..] == [] then NULL else pa];
    assert t.size == s.size[pa := SizeOf(c)];
    assert Source(s, c, pa) == (pa, list);
  }

  lemma PagesApart(p: nat, q: nat)
    requires p < q && Floor(p) != Floor(q)
    ensures Floor(p) + PG_SIZE <= Floor(q) <= q
  {
  }

  lemma WhichObject(pa: nat, size: nat, a: nat)
    requires IsSize(size) && pa % PG_SIZE == 0
    ensures a in Objects(pa, size) <==> IsObject(pa, size, a)
    ensures IsObject(pa, size, a) ==> Floor(a) == pa
  {
    if a in Objects(pa, size) {
      ObjectsLength(pa, size);
      var i: nat :| i < |Objects(pa, size)| && Objects(pa, size)[i] == a;
      ObjectsAt(pa, size, i);
    }
    if IsObject(pa, size, a) {
      ObjectsAll(pa, size, a);
      ObjectPage(pa, size, a);
    }
  }

  ghost function Elements(s: seq<nat>): set<nat> { set x | x in s }

  lemma {:induction false} DistinctCount(s: seq<nat>)
    requires forall i, j | 0 <= i < j < |s| :: s[i] != s[j]
    ensures |Elements(s)| == |s|
    decreases |s|
  {
    if s != [] {
      DistinctCount(s[1..]);
      OneMore(s);
    }
  }

  lemma OneMore(s: seq<nat>)
    requires s != [] && s[0] !in s[1..]
    ensures |Elements(s)| == |Elements(s[1..])| + 1
  {
    assert s == [s[0]] + s[1..];
    assert Elements(s) == Elements(s[1..]) + {s[0]};
  }

  /** A new slab page is no pointer of its own. */
  lemma PageAdded(h: nat, blocks: set<nat>, blocks': set<nat>, base: nat, pages: set<nat>, pa: nat)
    requires !IsBlockPtr(h, blocks, base, pages, pa)
    requires forall p: nat ::
               IsBlockPtr(h, blocks', base, pages, p) <==> IsBlockPtr(h, blocks, base, pages, p) || p == pa
    ensures forall p: nat :: IsBlockPtr(h, blocks', base, pages + {pa}, p) <==> IsBlockPtr(h, blocks, base, pages, p)
  {
    forall p: nat
      ensures IsBlockPtr(h, blocks', base, pages + {pa}, p) <==> IsBlockPtr(h, blocks', base, pages, p) && p != pa
    {
    }
  }

  lemma SizeIs(c: nat)
    requires c < CLASSES
    ensures IsSize(SizeOf(c)) && SizeOf(c) > 0
  {
    assert IsSize(SizeOf(c));
    ClassTable(SizeOf(c));
  }

  /** Slabs are not linked to one another. */
  lemma Solo(h: nat, blocks: set<nat>, base: nat, slabs: map<nat, SlabHead>, free: map<nat, seq<nat>>,
             live: set<nat>, next: map<nat, nat>, pa: nat)
    requires SlabsOk(h, blocks, base, slabs, free, live, next) && pa in slabs
    ensures slabs[pa].next == NULL && !slabs[pa].empty
  {
    assert SlabAt(h, blocks, base, slabs, free, live, next, pa);
  }

  lemma ListSet(caches: seq<KmemCache>, slabs: map<nat, SlabHead>, free: map<nat, seq<nat>>, c: nat, pa: nat)
    requires CachesOk(caches, slabs, free) && c < CLASSES
    requires pa == NULL || (pa in slabs && pa in free && slabs[pa].size == SizeOf(c) && free[pa] != [])
    ensures CachesOk(caches[c := caches[c].(slab_list := pa)], slabs, free)
  {
    var caches' := caches[c := caches[c].(slab_list := pa)];
    forall d: nat | d < CLASSES
      ensures CacheOk(d, caches'[d], slabs, free)
    {
      assert CacheOk(d, caches[d], slabs, free);
    }
  }

  /** Taking an object: a slab left without one leaves its cache. */
  lemma PopCaches(caches: seq<KmemCache>, slabs: map<nat, SlabHead>, free: map<nat, seq<nat>>, c: nat, pa: nat,
                  rest: nat)
    requires CachesOk(caches, slabs, free) && c < CLASSES && caches[c].slab_list == pa && pa in slabs && pa in free
             && free[pa] != []
    requires pa != NULL && (rest == NULL <==> free[pa][1..] == [])
    ensures CachesOk(if rest == NULL then caches[c := caches[c].(slab_list := NULL)] else caches,
                     slabs[pa := slabs[pa].(freelist := rest)], free[pa := free[pa][1..]])
  {
    assert CacheOk(c, caches[c], slabs, free);
    var caches' := if rest == NULL then caches[c := caches[c].(slab_list := NULL)] else caches;
    forall d: nat | d < CLASSES
      ensures CacheOk(d, caches'[d], slabs[pa := slabs[pa].(freelist := rest)], free[pa := free[pa][1..]])
    {
      assert CacheOk(d, caches[d], slabs, free);
      if d != c { DifferentSizes(c, d); }
    }
  }

  lemma NextObject(slab: nat, offset: nat, i: nat, size: nat)
    ensures slab + offset + (i + 1) * size == slab + offset + i * size + size
  {
  }

  lemma StillOnly(n0: map<nat, nat>, n1: map<nat, nat>, n2: map<nat, nat>, pa: nat, a: nat)
    requires OnlyIn(n0, n1, pa) && Floor(a) == pa && a in n2 && n2 == n1[a := n2[a]]
    ensures OnlyIn(n0, n2, pa)
  {
    forall x | x in n0 && Floor(x) != pa
      ensures SamePointer(n0, n2, x)
    {
      assert SamePointer(n0, n1, x);
    }
  }

  /** The caches do not depend on another slab. */
  lemma CachesKept(caches: seq<KmemCache>, slabs: map<nat, SlabHead>, free: map<nat, seq<nat>>, pa: nat,
                   head: SlabHead, list: seq<nat>)
    requires CachesOk(caches, slabs, free)
    requires pa !in slabs || (head.size == slabs[pa].size && (pa in free && free[pa] != [] ==> list != []))
    ensures CachesOk(caches, slabs[pa := head], free[pa := list])
  {
    forall c: nat | c < CLASSES
      ensures CacheOk(c, caches[c], slabs[pa := head], free[pa := list])
    {
      assert CacheOk(c, caches[c], slabs, free);
    }
  }
}
