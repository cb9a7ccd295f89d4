/** Which object kmalloc hands out next, over whole runs: a slab whose last object
    went out leaves its cache, and `kfree_object` never puts it back. */
module SlabRuns {
  import opened Arith
  import opened Bits
  import opened Pages
  import opened SlabSpec

  /** The current slab of every cache, and the free list and object size of every
      slab page. */
  datatype Pools = Pools(cur: seq<nat>, free: map<nat, seq<nat>>, size: map<nat, nat>)

  predicate CurOk(s: Pools, c: nat)
    requires c < |s.cur|
  {
    s.cur[c] == NULL
    || (s.cur[c] in s.free && s.cur[c] in s.size && s.size[s.cur[c]] == SizeOf(c) && s.free[s.cur[c]] != [])
  }

  predicate InPageOf(s: Pools, pa: nat)
    requires pa in s.free
  {
    pa != NULL && pa in s.size && forall a | a in s.free[pa] :: Floor(a) == pa
  }

  ghost predicate PoolsOk(s: Pools) {
    && |s.cur| == CLASSES && s.size.Keys == s.free.Keys
    && (forall c: nat {:trigger CurOk(s, c)} | c < CLASSES :: CurOk(s, c))
    && (forall pa {:trigger InPageOf(s, pa)} | pa in s.free :: InPageOf(s, pa))
  }

  /** The slab that serves class c, and its free list: the current one, or a page
      page. */
  ghost function Source(s: Pools, c: nat, page: nat): (nat, seq<nat>)
    requires PoolsOk(s) && c < CLASSES
  {
    assert CurOk(s, c);
    if s.cur[c] != NULL then (s.cur[c], s.free[s.cur[c]])
    else
      assert IsSize(SizeOf(c));
      (page, Objects(page, SizeOf(c)))
  }

  /** `kmalloc_object`. */
  ghost function Take(s: Pools, c: nat, page: nat): (Pools, nat)
    requires PoolsOk(s) && c < CLASSES
  {
    SourceFull(s, c, page);
    var (pa, list) := Source(s, c, page);
    (Pools(s.cur[c := if list[1..] == [] then NULL else pa], s.free[pa := list[1..]], s.size[pa := SizeOf(c)]), list[0])
  }

  /** `kfree_object`. */
  function Give(s: Pools, p: nat): Pools
    requires Floor(p) in s.free
  {
    s.(free := s.free[Floor(p) := [p] + s.free[Floor(p)]])
  }

  lemma SourceFull(s: Pools, c: nat, page: nat)
    requires PoolsOk(s) && c < CLASSES
    ensures Source(s, c, page).1 != []
  {
    assert CurOk(s, c);
    assert IsSize(SizeOf(c));
    ClassTable(SizeOf(c));
  }

  predicate PageAddress(pa: nat) { pa != NULL && pa % PG_SIZE == 0 }

  lemma SourcePage(s: Pools, c: nat, page: nat, a: nat)
    requires PoolsOk(s) && c < CLASSES && (s.cur[c] == NULL ==> PageAddress(page)) && a in Source(s, c, page).1
    ensures Floor(a) == Source(s, c, page).0 != NULL
  {
    assert CurOk(s, c);
    if s.cur[c] != NULL {
      assert InPageOf(s, s.cur[c]);
    } else {
      var size := SizeOf(c);
      assert IsSize(size);
      ClassTable(size);
      var i: nat :| i < |Objects(page, size)| && Objects(page, size)[i] == a;
      ObjectsAt(page, size, i);
      ObjectPage(page, size, a);
    }
  }

  /* ---- runs ---- */

  /** A request of class c, with the page a new slab would get, or a release. */
  datatype Op = Alloc(c: nat, page: nat) | Free(p: nat)

  ghost predicate CanDo(s: Pools, op: Op)
    requires PoolsOk(s)
  {
    match op
    case Alloc(c, page) => c < CLASSES && (s.cur[c] == NULL ==> PageAddress(page) && page !in s.free)
    case Free(p) => Floor(p) in s.free
  }

  ghost function Do(s: Pools, op: Op): (t: Pools)
    requires PoolsOk(s) && CanDo(s, op)
  {
    match op
    case Alloc(c, page) => Take(s, c, page).0
    case Free(p) => Give(s, p)
  }

  lemma DoKeeps(s: Pools, op: Op)
    requires PoolsOk(s) && CanDo(s, op)
    ensures PoolsOk(Do(s, op)) && s.free.Keys <= Do(s, op).free.Keys
  {
    match op {
      case Alloc(c, page) => TakeKeeps(s, c, page);
      case Free(p) => GiveKeeps(s, p);
    }
  }

  lemma TakeKeeps(s: Pools, c: nat, page: nat)
    requires PoolsOk(s) && CanDo(s, Alloc(c, page))
    ensures PoolsOk(Take(s, c, page).0) && s.free.Keys <= Take(s, c, page).0.free.Keys
  {
    SourceFull(s, c, page);
    var (pa, list) := Source(s, c, page);
    var t := Take(s, c, page).0;
    assert CurOk(s, c);
    SourcePage(s, c, page, list[0]);
    forall a | a in list[1..]
      ensures Floor(a) == pa
    {
      assert a in list;
      SourcePage(s, c, page, a);
    }
    hide Source, Objects, Floor, SizeOf;
    forall d: nat | d < CLASSES
      ensures CurOk(t, d)
    {
      assert CurOk(s, d);
      if d != c && s.cur[d] == pa { DifferentSizes(c, d); }
    }
    forall q | q in t.free
      ensures InPageOf(t, q)
    {
      if q != pa { assert InPageOf(s, q); }
    }
  }

  lemma DifferentSizes(c: nat, d: nat)
    requires c != d
    ensures SizeOf(c) != SizeOf(d)
  {
    if c < d { Pow2Increasing(c, d); } else { Pow2Increasing(d, c); }
  }

  lemma GiveKeeps(s: Pools, p: nat)
    requires PoolsOk(s) && Floor(p) in s.free
    ensures PoolsOk(Give(s, p)) && Give(s, p).free.Keys == s.free.Keys
  {
    hide Floor, SizeOf;
    var t := Give(s, p);
    forall d: nat | d < CLASSES
      ensures CurOk(t, d)
    {
      assert CurOk(s, d);
    }
    forall q | q in t.free
      ensures InPageOf(t, q)
    {
      assert InPageOf(s, q);
    }
  }

  /** The operations can be done one after the other. */
  ghost predicate Doable(s: Pools, ops: seq<Op>)
    requires PoolsOk(s)
    decreases |ops|
  {
    ops == [] || (CanDo(s, ops[0]) && (DoKeeps(s, ops[0]); Doable(Do(s, ops[0]), ops[1..])))
  }

  /** What the requests among them return. */
  ghost function HandedOut(s: Pools, ops: seq<Op>): (r: seq<nat>)
    requires PoolsOk(s) && Doable(s, ops)
    decreases |ops|
  {
    if ops == [] then []
    else
      DoKeeps(s, ops[0]);
      (if ops[0].Alloc? then [Take(s, ops[0].c, ops[0].page).1] else []) + HandedOut(Do(s, ops[0]), ops[1..])
  }

  ghost function After(s: Pools, ops: seq<Op>): (t: Pools)
    requires PoolsOk(s) && Doable(s, ops)
    ensures PoolsOk(t)
    decreases |ops|
  {
    if ops == [] then s else DoKeeps(s, ops[0]); After(Do(s, ops[0]), ops[1..])
  }

  /** An object just freed is the next one its class hands out exactly when its
      slab is the current one of the cache. */
  lemma FreedIsNextIff(s: Pools, p: nat, c: nat, page: nat)
    requires PoolsOk(s) && Floor(p) in s.free && CanDo(s, Alloc(c, page))
    ensures PoolsOk(Give(s, p)) && (Take(Give(s, p), c, page).1 == p <==> s.cur[c] == Floor(p))
  {
    GiveKeeps(s, p);
    var t := Give(s, p);
    assert CurOk(t, c) && InPageOf(s, Floor(p));
    SourceFull(t, c, page);
    var (pa, list) := Source(t, c, page);
    SourcePage(t, c, page, list[0]);
  }

  /** A slab no cache points to. */
  predicate Left(s: Pools, pa: nat) { pa in s.free && pa !in s.cur }

  lemma LeftStays(s: Pools, op: Op, pa: nat)
    requires PoolsOk(s) && CanDo(s, op) && Left(s, pa)
    ensures Left(Do(s, op), pa)
    ensures op.Alloc? ==> Floor(Take(s, op.c, op.page).1) != pa
  {
    if op.Alloc? {
      SourceFull(s, op.c, op.page);
      assert CurOk(s, op.c) && InPageOf(s, pa);
      var list := Source(s, op.c, op.page).1;
      SourcePage(s, op.c, op.page, list[0]);
      assert s.cur[op.c] in s.cur;
    }
  }

  /** Once a slab has left its cache no request is ever served from it, whatever
      is freed into it. */
  lemma {:induction false} NeverAgain(s: Pools, ops: seq<Op>, pa: nat)
    requires PoolsOk(s) && Doable(s, ops) && Left(s, pa)
    ensures Left(After(s, ops), pa) && forall a | a in HandedOut(s, ops) :: Floor(a) != pa
    decreases |ops|
  {
    if ops != [] {
      hide Take, Give, PoolsOk, Floor, Left;
      DoKeeps(s, ops[0]);
      LeftStays(s, ops[0], pa);
      NeverAgain(Do(s, ops[0]), ops[1..], pa);
    }
  }

  /** k requests of one class. */
  function Requests(c: nat, page: nat, k: nat): seq<Op> { seq(k, _ => Alloc(c, page)) }

  /** While its slab is current, every free object of it goes out in turn. */
  lemma {:induction false} CurrentServes(s: Pools, c: nat, k: nat)
    requires PoolsOk(s) && c < CLASSES && s.cur[c] != NULL && s.cur[c] in s.free && k < |s.free[s.cur[c]]|
    ensures Doable(s, Requests(c, NULL, k + 1))
    ensures var out := HandedOut(s, Requests(c, NULL, k + 1)); |out| == k + 1 && out[k] == s.free[s.cur[c]][k]
    decreases k
  {
    var op, ops := Alloc(c, NULL), Requests(c, NULL, k + 1);
    var list := s.free[s.cur[c]];
    assert ops[0] == op && ops[1..] == Requests(c, NULL, k);
    DoKeeps(s, op);
    var t := Do(s, op);
    if k == 0 {
      assert Requests(c, NULL, 0) == [];
      assert HandedOut(s, ops) == [list[0]] + HandedOut(t, []);
    } else {
      assert list[1..] != [] && t.cur[c] == s.cur[c] && t.free[t.cur[c]] == list[1..];
      CurrentServes(t, c, k - 1);
      assert HandedOut(s, ops) == [list[0]] + HandedOut(t, Requests(c, NULL, k));
    }
  }

  /** A free object is ever handed out again exactly when its slab is current. */
  lemma ReusedIff(s: Pools, p: nat)
    requires PoolsOk(s) && Floor(p) in s.free && p in s.free[Floor(p)]
    ensures (exists ops :: Doable(s, ops) && p in HandedOut(s, ops)) <==> Floor(p) in s.cur
  {
    var pa := Floor(p);
    if pa in s.cur {
      var c: nat :| c < |s.cur| && s.cur[c] == pa;
      var k: nat :| k < |s.free[pa]| && s.free[pa][k] == p;
      assert InPageOf(s, pa);
      CurrentServes(s, c, k);
      var out := HandedOut(s, Requests(c, NULL, k + 1));
      assert p == out[k];
    } else {
      forall ops | Doable(s, ops)
        ensures p !in HandedOut(s, ops)
      {
        NeverAgain(s, ops, pa);
      }
    }
  }

  /* ---- a page lost for every request ---- */

  const BIG: nat := 8    // the class of 2048 bytes: one object a slab

  lemma OneObject(pa: nat)
    ensures IsSize(SizeOf(BIG)) && Objects(pa, SizeOf(BIG)) == [pa + 2048]
  {
    PowTable();
    assert SizeOf(BIG) == 2048 && IsSize(2048);
    ClassTable(2048);
    assert NumOf(2048) == 1 && OffOf(2048) == 2048;
  }

  /** kmalloc(2048) and kfree of what it returned, with no current slab: the page
      stays a slab that no cache points to. */
  lemma PairLosesPage(s: Pools, page: nat)
    requires PoolsOk(s) && s.cur[BIG] == NULL && PageAddress(page) && page !in s.free
    ensures var (t, p) := Take(s, BIG, page);
            && p == page + 2048 && Floor(p) == page && page in t.free
            && PoolsOk(t) && PoolsOk(Give(t, p))
            && (var u := Give(t, p); u.cur[BIG] == NULL && u.free == s.free[page := [p]] && Left(u, page))
  {
    OneObject(page);
    assert CurOk(s, BIG);
    TakeKeeps(s, BIG, page);
    var (t, p) := Take(s, BIG, page);
    SourcePage(s, BIG, page, p);
    GiveKeeps(t, p);
    assert t.cur == s.cur[BIG := NULL] && t.free == s.free[page := []];
    assert [p] + [] == [p] && s.free[page := []][page := [p]] == s.free[page := [p]];
    forall c: nat | c < CLASSES
      ensures s.cur[c] != page
    {
      assert CurOk(s, c);
    }
    assert forall a | a in t.cur :: a in s.cur || a == NULL;
  }

  /** Pairs of request and release on the pages given. */
  function Pairs(pages: seq<nat>): seq<Op> {
    if pages == [] then [] else [Alloc(BIG, pages[0]), Free(pages[0] + 2048)] + Pairs(pages[1..])
  }

  /** n such pairs use up n pages: all of them are slabs afterwards, with every
      object free and none to be had. */
  lemma {:induction false} EveryPairLosesPage(s: Pools, pages: seq<nat>)
    requires PoolsOk(s) && s.cur[BIG] == NULL
    requires forall i | 0 <= i < |pages| :: PageAddress(pages[i]) && pages[i] !in s.free
    requires forall i, j | 0 <= i < j < |pages| :: pages[i] != pages[j]
    ensures Doable(s, Pairs(pages))
    ensures HandedOut(s, Pairs(pages)) == seq(|pages|, i requires 0 <= i < |pages| => pages[i] + 2048)
    ensures forall i | 0 <= i < |pages| :: Left(After(s, Pairs(pages)), pages[i])
    decreases |pages|
  {
    hide Take, Give, PoolsOk, Left;
    if pages != [] {
      var page, ops := pages[0], Pairs(pages);
      PairLosesPage(s, page);
      var (t, p) := Take(s, BIG, page);
      var u := Give(t, p);
      assert ops[0] == Alloc(BIG, page) && ops[1..][0] == Free(p) && ops[1..][1..] == Pairs(pages[1..]);
      EveryPairLosesPage(u, pages[1..]);
      NeverAgain(u, Pairs(pages[1..]), page);
      assert After(s, ops) == After(t, ops[1..]) == After(u, Pairs(pages[1..]));
      assert forall i | 0 < i < |pages| :: pages[i] == pages[1..][i - 1];
      assert HandedOut(t, ops[1..]) == [] + HandedOut(u, ops[1..][1..]);
      assert HandedOut(s, ops) == [p] + HandedOut(t, ops[1..]);
    }
  }
}
