/** `kernel/vmm.c`: walking, mapping, unmapping and freeing a page-table tree. */
module PageTable {
  import opened Pages
  import opened Pte
  import opened RadixTree
  import opened PageMap
  import opened TableNeed

  class PageTable {
    const root: nat
    var mem: Mem
    var pool: set<nat>     // pages `palloc` may hand out
    ghost var path: Paths
    ghost var pages: Map   // the map the tree stands for

    ghost predicate Valid()
      reads this
    {
      && Shape(mem, path, root)
      && Represents(mem, root, pages)
      && (forall c | c in pool :: Fresh(mem, c))
    }

    /** `uvminit`: a zeroed root. */
    constructor (page: nat, free: set<nat>)
      requires 0 < page < FRAME_LIMIT && page % PG_SIZE == 0 && page !in free
      requires forall c | c in free :: 0 < c < FRAME_LIMIT && c % PG_SIZE == 0
      ensures Valid() && root == page && pool == free
      ensures pages == map[]
    {
      root := page;
      mem := map[page := Zeros()];
      pool := free;
      path := map[page := []];
      pages := map[];
      new;
      assert Shape(mem, path, root);
    }

    /** `walk`: the level-0 table serving va, or 0 for NULL. Allocation changes
        no translation and takes exactly the tables that were missing for va;
        pages only move from the pool into the tree. */
    method Walk(va: nat, alloc: bool) returns (table: nat)
      requires Valid() && (alloc ==> |pool| >= Missing(Tops(mem, root), Leafs(mem, root), Vpn(va)))
      modifies this`mem, this`pool, this`path
      ensures Valid()
      ensures table == LeafTable(mem, root, Vpn(va))
      ensures table == 0 ==> Vpn(va) !in pages
      ensures alloc ==> && table != 0
                        && |pool| == old(|pool|) - old(Missing(Tops(mem, root), Leafs(mem, root), Vpn(va)))
                        && Tops(mem, root) == old(Tops(mem, root)) + {Vpn(va) / TOP_SPAN}
                        && Leafs(mem, root) == old(Leafs(mem, root)) + {Vpn(va) / LEAF_SPAN}
      ensures !alloc ==> mem == old(mem) && pool == old(pool) && path == old(path)
      ensures mem.Keys + pool == old(mem.Keys + pool)
    {
      hide Shape, Represents, Step, LeafTable, PteIndex, Vpn, Tops, Leafs;
      var p, level := root, 2;
      ghost var v := Vpn(va);
      ghost var tops, leafs := Tops(mem, root), Leafs(mem, root);
      Indices(mem, root, va);
      RootPath(mem, path, root);
      while level > 0
        invariant 0 <= level <= 2 && Valid() && p in mem && p in path
        invariant if level == 2 then p == root && path[p] == []
                  else if level == 1 then path[p] == [v / TOP_SPAN] && Step(mem, root, v / TOP_SPAN) == p != 0
                  else LeafTable(mem, root, v) == p != 0
        invariant alloc ==> Tops(mem, root) == if level == 2 then tops else tops + {v / TOP_SPAN}
        invariant alloc ==> Leafs(mem, root) == if level > 0 then leafs else leafs + {v / LEAF_SPAN}
        invariant alloc ==> |pool| == old(|pool|) - (if level < 2 && v / TOP_SPAN !in tops then 1 else 0)
                                                  - (if level < 1 && v / LEAF_SPAN !in leafs then 1 else 0)
        invariant !alloc ==> mem == old(mem) && pool == old(pool) && path == old(path)
        invariant mem.Keys + pool == old(mem.Keys + pool)
      {
        Indices(mem, root, va);
        RootPath(mem, path, root);
        var next := Follow(p, PteIndex(va, level), alloc);
        Indices(mem, root, va);
        if next == 0 {
          Unserved(mem, root, v, pages);
          return 0;
        }
        p := next;
        level := level - 1;
      }
      return p;
    }

    /** One round of the loop in `walk`: the next table, or 0. */
    method Follow(p: nat, i: nat, alloc: bool) returns (next: nat)
      requires Valid() && (alloc ==> Step(mem, p, i) == 0 ==> pool != {})
      requires p in mem && p in path && |path[p]| < 2 && i < PTE_NUM
      requires if path[p] == [] then p == root else Step(mem, root, path[p][0]) == p
      modifies this`mem, this`pool, this`path
      ensures Valid() && next == Step(mem, p, i)
      ensures next != 0 ==> next in mem && next in path && path[next] == old(path[p]) + [i]
      ensures alloc ==> next != 0 && |pool| == old(|pool|) - if old(Step(mem, p, i)) == 0 then 1 else 0
      ensures alloc ==> Tops(mem, root) == if old(path[p]) == [] then old(Tops(mem, root)) + {i}
              else old(Tops(mem, root))
      ensures alloc ==> Leafs(mem, root) == if old(path[p]) == [] then old(Leafs(mem, root))
                                            else old(Leafs(mem, root)) + {512 * old(path[p][0]) + i}
      ensures alloc || old(Step(mem, p, i)) != 0 ==> next != 0
      ensures !alloc ==> mem == old(mem) && pool == old(pool) && path == old(path)
      ensures forall q, j: nat | q in old(mem) && j < PTE_NUM && (q != p || j != i) ::
              Step(mem, q, j) == old(Step(mem, q, j))
      ensures mem.Keys + pool == old(mem.Keys + pool)
    {
      hide Shape, Represents, Tops, Leafs, Step;
      UpperEntry(mem, path, root, p, i);
      if IsValid(mem[p][i]) {
        next := PteToPa(mem[p][i]);
        Counted(mem, path, root, p, i);
      } else if alloc {
        var c :| c in pool;
        Link(p, i, c);
        next := c;
      } else {
        return 0;
      }
    }

    /** `palloc`, `memset` and the write of the upper entry in `walk`. */
    method Link(p: nat, i: nat, c: nat)
      requires Valid() && p in mem && p in path && i < PTE_NUM && |path[p]| < 2
      requires if path[p] == [] then p == root else Step(mem, root, path[p][0]) == p
      requires PageOk(mem, path, p) && mem[p][i] == 0 && c in pool
      modifies this`mem, this`pool, this`path
      ensures Valid() && c in mem && c in path && path[c] == old(path[p]) + [i] && c != 0
      ensures mem == Linked(old(mem), p, i, c) && path == old(path)[c := old(path)[p] + [i]]
      ensures Step(mem, p, i) == c && |pool| == old(|pool|) - 1
      ensures Tops(mem, root) == if old(path[p]) == [] then old(Tops(mem, root)) + {i} else old(Tops(mem, root))
      ensures Leafs(mem, root) == if old(path[p]) == [] then old(Leafs(mem, root))
                                  else old(Leafs(mem, root)) + {512 * old(path[p][0]) + i}
      ensures forall q, j: nat | q in old(mem) && j < PTE_NUM && (q != p || j != i) ::
              Step(mem, q, j) == old(Step(mem, q, j))
      ensures mem.Keys + pool == old(mem.Keys + pool)
    {
      hide Shape, Represents, Tops, Leafs, Step, Linked;
      assert Fresh(mem, c);
      LinkedKeys(mem, p, i, c);
      ghost var m0 := mem;
      forall q, j: nat | q in mem && j < PTE_NUM
        ensures Step(Linked(mem, p, i, c), q, j) == if q == p && j == i then c else Step(mem, q, j)
      {
        LinkedSteps(mem, path, root, p, i, c, q, j);
      }
      if path[p] == [] { LinkTop(mem, path, root, i, c); } else { LinkLeaf(mem, path, root, p, i, c); }
      LinkShape(mem, path, root, p, i, c);
      LinkKeepsMap(mem, path, root, p, i, c, pages);
      path := path[c := path[p] + [i]];
      mem := Linked(mem, p, i, c);
      pool := pool - {c};
    }

    /** Store through the pointer `walk` returned. */
    method SetLeaf(table: nat, va: nat, pte: nat)
      requires Valid() && table == LeafTable(mem, root, Vpn(va)) && table != 0
      requires pte == 0 || IsValid(pte)
      modifies this`mem, this`pages
      ensures Valid() && mem.Keys == old(mem.Keys)
      ensures Tops(mem, root) == old(Tops(mem, root)) && Leafs(mem, root) == old(Leafs(mem, root))
      ensures pages == if pte == 0 then old(pages) - {Vpn(va)}
                                else old(pages)[Vpn(va) := pte]
    {
      hide Shape, Represents, Tops, Leafs, LeafTable;
      IndexOfVa(va, 0);
      StoreLeaf(mem, path, root, Vpn(va), pte, pages);
      StoreKeepsTables(mem, path, root, Vpn(va), pte);
      pages := if pte == 0 then pages - {Vpn(va)} else pages[Vpn(va) := pte];
      mem := Stored(mem, table, PteIndex(va, 0), pte);
    }

    /** `*pte` for the pointer `walk` returned. */
    method GetLeaf(table: nat, va: nat) returns (pte: nat)
      requires Valid() && table == LeafTable(mem, root, Vpn(va)) && table != 0
      ensures pte == Leaf(mem, root, Vpn(va)) && (pte == 0 || IsValid(pte))
      ensures IsValid(pte) <==> Vpn(va) in pages
      ensures IsValid(pte) ==> pte == pages[Vpn(va)]
    {
      IndexOfVa(va, 0);
      LeafTablePath(mem, path, root, Vpn(va));
      assert PageOk(mem, path, table) && EntryOk(mem, path, table, PteIndex(va, 0));
      pte := mem[table][PteIndex(va, 0)];
    }

    /** The tables missing for a range. */
    ghost function MapNeed(va: nat, sz: nat): nat
      reads this
    {
      if sz == 0 then 0 else Need(Tops(mem, root), Leafs(mem, root), Range(Floor(va), PagesTouched(va, sz)))
    }

    /** `mappages`; false is the panic on an already mapped page. It takes exactly
        the tables that were missing. */
    method MapPages(va: nat, pa0: nat, sz: nat, perm: nat) returns (ok: bool)
      requires Valid() && perm < 1024
      requires |pool| >= MapNeed(va, sz)
      modifies this`mem, this`pool, this`path, this`pages
      ensures Valid() && mem.Keys + pool == old(mem.Keys + pool)
      ensures ok ==> |pool| == old(|pool|) - old(MapNeed(va, sz))
      ensures (pages, ok)
           == if sz == 0 then (old(pages), true)
              else MapSpec(old(pages), Range(Floor(va), PagesTouched(va, sz)), pa0, perm)
    {
      if sz == 0 {
        return true;
      }
      hide Mapping, MapSpec, Need, Tops, Leafs, Vpn, Range, AtPage;
      var i: nat, end: nat, pa: nat := Floor(va), Ceil(va + sz), pa0;
      ghost var i0, whole, k: nat := i, Range(i, PagesTouched(va, sz)), 0;
      ghost var goal, spare, all := MapSpec(pages, whole, pa, perm), |pool| - MapNeed(va, sz), mem.Keys + pool;
      FirstPage(va, sz);
      StartMapping(whole, pa, perm, goal, spare, all);
      hide PagesTouched, Floor, Ceil, PageTable.Valid;
      while i < end
        invariant k <= |whole| && AtPage(i0, i, end, k, |whole|) && Mapping(whole[k..], pa, perm, goal, spare, all)
        decreases end - i
      {
        NextPage(i0, i, end, k, |whole|);
        ok := MapNext(i, pa, perm, whole[k..], goal, spare, all);
        if !ok {
          return false;
        }
        assert whole[k..][1..] == whole[k + 1..];
        pa := pa + PG_SIZE;
        i := i + PG_SIZE;
        k := k + 1;
      }
      LastPage(i0, i, end, k, |whole|);
      FinishMapping(whole[k..], pa, perm, goal, spare, all);
      return true;
    }

    /** The pages left to map, with spare pages more in the pool than that takes. */
    ghost predicate Mapping(rest: seq<nat>, pa: nat, perm: nat, goal: (Map, bool), spare: nat, all: set<nat>)
      reads this
    {
      && Valid() && mem.Keys + pool == all && perm < 1024
      && |pool| == Need(Tops(mem, root), Leafs(mem, root), rest) + spare
      && MapSpec(pages, rest, pa, perm) == goal
    }

    lemma StartMapping(rest: seq<nat>, pa: nat, perm: nat, goal: (Map, bool), spare: nat, all: set<nat>)
      requires Valid() && mem.Keys + pool == all && perm < 1024
      requires |pool| == Need(Tops(mem, root), Leafs(mem, root), rest) + spare
      requires goal == MapSpec(pages, rest, pa, perm)
      ensures Mapping(rest[0..], pa, perm, goal, spare, all)
    {
      assert rest == rest[0..];
    }

    lemma FinishMapping(rest: seq<nat>, pa: nat, perm: nat, goal: (Map, bool), spare: nat, all: set<nat>)
      requires Mapping(rest, pa, perm, goal, spare, all) && rest == []
      ensures Valid() && mem.Keys + pool == all && |pool| == spare && (pages, true) == goal
    {
      NeedNothing(Tops(mem, root), Leafs(mem, root));
    }

    method MapNext(i: nat, pa: nat, perm: nat, ghost rest: seq<nat>, ghost goal: (Map, bool), ghost spare: nat,
                   ghost all: set<nat>)
      returns (ok: bool)
      requires rest != [] && rest[0] == Vpn(i) && Mapping(rest, pa, perm, goal, spare, all)
      modifies this`mem, this`pool, this`path, this`pages
      ensures if ok then Mapping(rest[1..], pa + PG_SIZE, perm, goal, spare, all)
              else Valid() && mem.Keys + pool == all && (pages, false) == goal
    {
      hide Need, Tops, Leafs, Shape, Represents, Vpn, MakePte, Missing;
      NeedFirst(Tops(mem, root), Leafs(mem, root), rest);
      ok := MapOne(i, pa, perm);
    }

    /** One round of the loop in `mappages`. */
    method MapOne(va: nat, pa: nat, perm: nat) returns (ok: bool)
      requires Valid() && perm < 1024 && |pool| >= Missing(Tops(mem, root), Leafs(mem, root), Vpn(va))
      modifies this`mem, this`pool, this`path, this`pages
      ensures Valid() && mem.Keys + pool == old(mem.Keys + pool)
      ensures |pool| == old(|pool|) - old(Missing(Tops(mem, root), Leafs(mem, root), Vpn(va)))
      ensures Tops(mem, root) == old(Tops(mem, root)) + {Vpn(va) / TOP_SPAN}
      ensures Leafs(mem, root) == old(Leafs(mem, root)) + {Vpn(va) / LEAF_SPAN}
      ensures ok <==> Vpn(va) !in old(pages)
      ensures pages == if ok then old(pages)[Vpn(va) := MakePte(pa, perm)]
                                else old(pages)
    {
      hide Shape, Represents, Tops, Leafs, Missing, LeafTable;
      var table := Walk(va, true);
      var pte := GetLeaf(table, va);
      if IsValid(pte) {
        return false;
      }
      PteRoundTrip(pa, perm);
      SetLeaf(table, va, MakePte(pa, perm));
      return true;
    }

    /** `unmappages`; with free_p set the frames go back to `pfree`. */
    method UnmapPages(va: nat, sz: nat, free_p: bool) returns (freed: seq<nat>)
      requires Valid()
      modifies this`mem, this`pool, this`path, this`pages
      ensures Valid() && mem.Keys == old(mem.Keys) && pool == old(pool)
      ensures pages == UnmapSpec(old(pages), Range(va, PagesStepped(sz)))
      ensures freed == if free_p then Unmapped(old(pages), Range(va, PagesStepped(sz))) else []
    {
      freed := [];
      var i: nat := 0;
      ghost var n: nat := PagesStepped(sz);
      ghost var goal, all := UnmapSpec(pages, Range(va, n)), Unmapped(pages, Range(va, n));
      while i < sz
        invariant Valid() && mem.Keys == old(mem.Keys) && pool == old(pool)
        invariant n <= PagesStepped(sz) && i == (PagesStepped(sz) - n) * PG_SIZE
        invariant UnmapLeads(pages, Range(va + i, n), goal)
        invariant if free_p then FreesLeft(pages, Range(va + i, n), freed, all) else freed == []
      {
        StepsLeft(sz, PagesStepped(sz) - n);
        ghost var m := pages;
        var f := UnmapOne(va + i, free_p);
        UnmapRound(m, pages, va + i, n, goal);
        if free_p { FreeRound(m, pages, va + i, n, freed, f, all); }
        freed := freed + f;
        i := i + PG_SIZE;
        n := n - 1;
      }
      StepsLeft(sz, PagesStepped(sz) - n);
    }

    /** One round of the loop in `unmappages`. */
    method UnmapOne(va: nat, free_p: bool) returns (freed: seq<nat>)
      requires Valid()
      modifies this`mem, this`pool, this`path, this`pages
      ensures Valid() && mem.Keys == old(mem.Keys) && pool == old(pool)
      ensures pages == old(pages) - {Vpn(va)}
      ensures freed == if free_p && Vpn(va) in old(pages)
                       then [PteToPa(old(pages)[Vpn(va)])] else []
    {
      freed := [];
      var table := Walk(va, false);
      if table == 0 {
        Absent(pages, Vpn(va));
        return;
      }
      var pte := GetLeaf(table, va);
      if !IsValid(pte) {
        Absent(pages, Vpn(va));
        return;
      }
      if free_p {
        freed := [PteToPa(pte)];
      }
      SetLeaf(table, va, 0);
    }

    /** `va2pa`. For an unmapped page the answer is 0 only when va is page
        aligned or no level-0 table exists; otherwise it is the bare offset. */
    method Va2Pa(va: nat) returns (pa: nat)
      requires Valid()
      modifies this`mem, this`pool, this`path
      ensures mem == old(mem) && pool == old(pool) && path == old(path)
      ensures va > 0x40_0000_0000 ==> pa == 0
      ensures va <= 0x40_0000_0000 && Vpn(va) in pages
              ==> pa == PteToPa(pages[Vpn(va)]) + va % PG_SIZE
      ensures va <= 0x40_0000_0000 && Vpn(va) !in pages
              ==> (pa == 0 <==> va % PG_SIZE == 0 || LeafTable(mem, root, Vpn(va)) == 0)
    {
      hide Shape, PteToPa;
      ZeroPte();
      if va > MAX_VA {
        return 0;
      }
      var table := Walk(va, false);
      if table == 0 {
        return 0;
      }
      var pte := GetLeaf(table, va);
      return PteToPa(pte) + va % PG_SIZE;
    }

    /** `free_user_pagetable` on a tree that maps nothing: every table page of the
        tree is handed back, each once, so with the pool they are all the pages
        the tree was ever given. */
    method FreeUserPagetable() returns (freed: seq<nat>)
      requires Valid() && pages == map[]
      modifies this`mem
      ensures forall q :: q in freed <==> q in old(mem)
      ensures forall a, b | 0 <= a < b < |freed| :: freed[a] != freed[b]
      ensures mem == map[]
    {
      hide Shape, Represents, NoLeaves;
      EmptyHasNoLeaves(mem, path, root);
      AllBelowRoot(mem, path, root);
      freed := WalkAndFree(root, mem);
    }

    /** `walk_and_free` on the table page p: when no leaf mapping is left it hands
        back p and every table page below it, each once, and never reads a page
        it has freed (a freed page leaves mem). */
    method WalkAndFree(p: nat, ghost whole: Mem) returns (freed: seq<nat>)
      requires Shape(whole, path, root) && NoLeaves(whole, path)
      requires forall q | q in mem :: q in whole && mem[q] == whole[q]
      requires p in path && Below(path, path[p]) <= mem.Keys
      modifies this`mem
      ensures mem == old(mem) - Below(path, path[p])
      ensures forall q :: q in freed <==> q in Below(path, path[p])
      ensures forall a, b | 0 <= a < b < |freed| :: freed[a] != freed[b]
      decreases 2 - |path[p]|
    {
      freed := [];
      assert p in Below(path, path[p]);
      assert PageOk(whole, path, p);
      var i: nat := 0;
      while i < PTE_NUM
        invariant i <= PTE_NUM
        invariant mem == old(mem) - BelowEntries(path, path[p], i)
        invariant forall q :: q in freed <==> q in BelowEntries(path, path[p], i)
        invariant forall a, b | 0 <= a < b < |freed| :: freed[a] != freed[b]
      {
        EntrySplit(path, path[p], i);
        assert EntryOk(whole, path, p, i);
        if IsValid(mem[p][i]) {
          ghost var c := PteToPa(mem[p][i]);
          assert path[c] == path[p] + [i];
          var f := WalkAndFree(PteToPa(mem[p][i]), whole);
          forall x | x in f
            ensures x !in freed
          {
            assert x in Below(path, path[c]);
          }
          DistinctAppend(freed, f);
          freed := freed + f;
        } else {
          forall q | q in path
            ensures q !in Below(path, path[p] + [i])
          {
            NothingBelowEmpty(whole, path, root, p, i, q);
          }
          assert Below(path, path[p] + [i]) == {};
        }
        i := i + 1;
      }
      AllEntries(whole, path, root, p);
      mem := mem - {p};
      freed := freed + [p];
    }
  }

  /** The indices of an address, by page number. */
  lemma Indices(mem: Mem, root: nat, va: nat)
    ensures var v := Vpn(va);
            && PteIndex(va, 2) == v / TOP_SPAN == (v / LEAF_SPAN) / 512 < 512
            && PteIndex(va, 1) == (v / LEAF_SPAN) % 512
            && v / LEAF_SPAN == 512 * PteIndex(va, 2) + PteIndex(va, 1) < 0x4_0000
            && LeafTable(mem, root, v) == TableAt(mem, root, v / LEAF_SPAN)
            && (v / TOP_SPAN in Tops(mem, root) <==> Step(mem, root, v / TOP_SPAN) != 0)
            && (v / LEAF_SPAN in Leafs(mem, root) <==> TableAt(mem, root, v / LEAF_SPAN) != 0)
  {
    IndexOfVa(va, 1);
    IndexOfVa(va, 2);
    TablePrefix(mem, root, Vpn(va));
  }

  lemma RootPath(mem: Mem, path: Paths, root: nat)
    requires Shape(mem, path, root)
    ensures root in mem && root in path && path[root] == []
  {
  }

  lemma DistinctAppend(s: seq<nat>, t: seq<nat>)
    requires forall a, b | 0 <= a < b < |s| :: s[a] != s[b]
    requires forall a, b | 0 <= a < b < |t| :: t[a] != t[b]
    requires forall x | x in t :: x !in s
    ensures forall a, b | 0 <= a < b < |s + t| :: (s + t)[a] != (s + t)[b]
  {
    forall a, b | 0 <= a < b < |s + t|
      ensures (s + t)[a] != (s + t)[b]
    {
      if a < |s| <= b { assert t[b - |s|] in t; }
    }
  }

  lemma Absent(m: Map, v: nat)
    requires v !in m
    ensures m - {v} == m
  {
  }

  ghost predicate UnmapLeads(m: Map, pages: seq<nat>, goal: Map) {
    UnmapSpec(m, pages) == goal
  }

  ghost predicate FreesLeft(m: Map, pages: seq<nat>, freed: seq<nat>, all: seq<nat>) {
    freed + Unmapped(m, pages) == all
  }

  lemma UnmapRound(m: Map, m': Map, i: nat, n: nat, goal: Map)
    requires n > 0 && m' == m - {Vpn(i)} && UnmapLeads(m, Range(i, n), goal)
    ensures UnmapLeads(m', Range(i + PG_SIZE, n - 1), goal)
  {
    RangeTail(i, n);
  }

  lemma FreeRound(m: Map, m': Map, i: nat, n: nat, freed: seq<nat>, f: seq<nat>, all: seq<nat>)
    requires n > 0 && m' == m - {Vpn(i)} && FreesLeft(m, Range(i, n), freed, all)
    requires f == if Vpn(i) in m then [PteToPa(m[Vpn(i)])] else []
    ensures FreesLeft(m', Range(i + PG_SIZE, n - 1), freed + f, all)
  {
    RangeTail(i, n);
    var rest := Unmapped(m', Range(i + PG_SIZE, n - 1));
    assert freed + (f + rest) == (freed + f) + rest;
  }

  lemma StepsLeft(sz: nat, k: nat)
    ensures k * PG_SIZE < sz <==> k < PagesStepped(sz)
  {
  }

  lemma RangeTail(i: nat, n: nat)
    requires n > 0
    ensures Range(i, n)[0] == Vpn(i) && Range(i, n)[1..] == Range(i + PG_SIZE, n - 1)
  {
  }

  /** The loop of `mappages` stands at page k of n. */
  ghost predicate AtPage(i0: nat, i: nat, end: nat, k: nat, n: nat) {
    i == i0 + k * PG_SIZE && end == i0 + n * PG_SIZE
  }

  lemma NextPage(i0: nat, i: nat, end: nat, k: nat, n: nat)
    requires AtPage(i0, i, end, k, n) && i < end
    ensures k < n && Range(i0, n)[k] == Vpn(i) && AtPage(i0, i + PG_SIZE, end, k + 1, n)
  {
    RangeAt(i0, n, k);
  }

  lemma LastPage(i0: nat, i: nat, end: nat, k: nat, n: nat)
    requires AtPage(i0, i, end, k, n) && i >= end && k <= n
    ensures k == n
  {
  }

  lemma FirstPage(va: nat, sz: nat)
    requires sz > 0
    ensures AtPage(Floor(va), Floor(va), Ceil(va + sz), 0, PagesTouched(va, sz))
  {
    PageCounts(va, sz);
    var q, r := va / 4096, va % 4096;
    var x := r + sz + 4095;
    assert va + sz + 4095 == 4096 * q + x;
    assert (va + sz + 4095) % 4096 == x % 4096;
  }
}
