/** The finite map that page tables stand for, and what mapping and unmapping
    a range means on it. */
module PageMap {
  import opened Pages
  import opened Pte

  type Map = map<nat, nat>  // page number -> leaf entry

  /** Number of pages `mappages` visits for sz > 0 bytes at va. */
  function PagesTouched(va: nat, sz: nat): nat {
    (Ceil(va + sz) - Floor(va)) / PG_SIZE
  }

  /** Number of pages `unmappages` visits. */
  function PagesStepped(sz: nat): nat {
    (sz + PG_SIZE - 1) / PG_SIZE
  }

  /** The page numbers met from address i on, one page at a time. */
  function Range(i: nat, n: nat): (s: seq<nat>)
    ensures |s| == n
    decreases n
  {
    if n == 0 then [] else [Vpn(i)] + Range(i + PG_SIZE, n - 1)
  }

  lemma {:induction false} RangeAt(i: nat, n: nat, k: nat)
    requires k < n
    ensures Range(i, n)[k] == Vpn(i + k * PG_SIZE)
    decreases n
  {
    if k > 0 {
      RangeAt(i + PG_SIZE, n - 1, k - 1);
      assert i + PG_SIZE + (k - 1) * PG_SIZE == i + k * PG_SIZE;
    }
  }

  /** Map the pages in turn on frames from pa on; false at the first page that
      is already mapped (the kernel panics there). */
  function MapSpec(m: Map, pages: seq<nat>, pa: nat, perm: nat): (Map, bool)
    decreases |pages|
  {
    if pages == [] then (m, true)
    else if pages[0] in m then (m, false)
    else MapSpec(m[pages[0] := MakePte(pa, perm)], pages[1..], pa + PG_SIZE, perm)
  }

  function UnmapSpec(m: Map, pages: seq<nat>): Map
    decreases |pages|
  {
    if pages == [] then m else UnmapSpec(m - {pages[0]}, pages[1..])
  }

  /** Frames given back by an unmapping run, in order. */
  function Unmapped(m: Map, pages: seq<nat>): seq<nat>
    decreases |pages|
  {
    if pages == [] then []
    else (if pages[0] in m then [PteToPa(m[pages[0]])] else []) + Unmapped(m - {pages[0]}, pages[1..])
  }

  ghost predicate Distinct(pages: seq<nat>) {
    forall j: nat, k: nat | j < k < |pages| :: pages[j] != pages[k]
  }

  ghost predicate Unused(m: Map, pages: seq<nat>) {
    forall k: nat | k < |pages| :: pages[k] !in m
  }

  lemma FirstAndRest(m: Map, pages: seq<nat>, e: nat)
    requires pages != []
    ensures Distinct(pages) && Unused(m, pages)
            <==> pages[0] !in m && Distinct(pages[1..]) && Unused(m[pages[0] := e], pages[1..])
  {
    var rest := pages[1..];
    assert forall k: nat | k < |rest| :: rest[k] == pages[k + 1];
    if pages[0] !in m && Distinct(rest) && Unused(m[pages[0] := e], rest) {
      forall k: nat | 0 < k < |pages|
        ensures pages[k] !in m && pages[k] != pages[0]
      {
        assert rest[k - 1] == pages[k];
      }
      forall j: nat, k: nat | 0 < j < k < |pages|
        ensures pages[j] != pages[k]
      {
        assert rest[j - 1] == pages[j] && rest[k - 1] == pages[k];
      }
    }
  }

  /** `mappages` completes exactly when its pages are distinct and unmapped. */
  lemma {:induction false} MapSucceedsIff(m: Map, pages: seq<nat>, pa: nat, perm: nat)
    ensures MapSpec(m, pages, pa, perm).1 <==> Distinct(pages) && Unused(m, pages)
    decreases |pages|
  {
    if pages != [] {
      var e := MakePte(pa, perm);
      FirstAndRest(m, pages, e);
      if pages[0] !in m { MapSucceedsIff(m[pages[0] := e], pages[1..], pa + PG_SIZE, perm); }
    }
  }

  /** It adds exactly its pages, page k on frame k, and changes no other page;
      even when it stops early nothing that was mapped is lost. */
  lemma {:induction false} MapAddsRange(m: Map, pages: seq<nat>, pa: nat, perm: nat)
    ensures var (m', ok) := MapSpec(m, pages, pa, perm);
            && (forall v | v in m :: v in m' && m'[v] == m[v])
            && (forall v | v in m' && v !in m :: v in pages)
            && (ok ==> forall k: nat | k < |pages| ::
                  pages[k] in m' && m'[pages[k]] == MakePte(pa + k * PG_SIZE, perm))
    decreases |pages|
  {
    if pages != [] && pages[0] !in m {
      var m1 := m[pages[0] := MakePte(pa, perm)];
      var rest := pages[1..];
      MapAddsRange(m1, rest, pa + PG_SIZE, perm);
      var (m', ok) := MapSpec(m, pages, pa, perm);
      assert pages[0] in m1;
      forall k: nat | ok && k < |pages|
        ensures pages[k] in m' && m'[pages[k]] == MakePte(pa + k * PG_SIZE, perm)
      {
        if k > 0 {
          assert rest[k - 1] == pages[k];
          assert pa + PG_SIZE + (k - 1) * PG_SIZE == pa + k * PG_SIZE;
        }
      }
    }
  }

  ghost function PageSet(pages: seq<nat>): set<nat> {
    set v | v in pages
  }

  /** `unmappages` removes exactly its pages. */
  lemma {:induction false} UnmapRemovesRange(m: Map, pages: seq<nat>)
    ensures UnmapSpec(m, pages) == m - PageSet(pages)
    decreases |pages|
  {
    if pages != [] {
      UnmapRemovesRange(m - {pages[0]}, pages[1..]);
      assert PageSet(pages) == {pages[0]} + PageSet(pages[1..]);
    }
  }

  lemma {:induction false} SamePages(va: nat, n: nat)
    ensures Range(va, n) == Range(Floor(va), n)
    decreases n
  {
    if n > 0 {
      assert Floor(va) / PG_SIZE == va / PG_SIZE;
      assert Floor(va + PG_SIZE) == Floor(va) + PG_SIZE;
      SamePages(va + PG_SIZE, n - 1);
    }
  }

  lemma {:induction false} RangePrefix(i: nat, u: nat, n: nat)
    requires u <= n
    ensures Range(i, u) == Range(i, n)[..u]
    decreases u
  {
    if u > 0 { RangePrefix(i + PG_SIZE, u - 1, n - 1); }
  }

  lemma PageCounts(va: nat, sz: nat)
    requires sz > 0
    ensures PagesTouched(va, sz) == (va % PG_SIZE + sz + PG_SIZE - 1) / PG_SIZE
    ensures PagesStepped(sz) <= PagesTouched(va, sz) <= PagesStepped(sz) + 1
    ensures PagesStepped(sz) >= 1
  {
    var q, r := va / 4096, va % 4096;
    assert va == 4096 * q + r;
    var x := r + sz + 4095;
    assert va + sz + 4095 == 4096 * q + x;
    assert (va + sz + 4095) % 4096 == x % 4096;
    assert Ceil(va + sz) == 4096 * q + (x - x % 4096);
  }

  /** Unmapping with the same address and size undoes mapping exactly when the
      bytes do not reach one page further than sz bytes from a page start do;
      otherwise one page stays mapped. */
  lemma UnmapUndoesMap(m: Map, va: nat, sz: nat, pa: nat, perm: nat)
    requires sz > 0
    requires MapSpec(m, Range(Floor(va), PagesTouched(va, sz)), pa, perm).1
    ensures UnmapSpec(MapSpec(m, Range(Floor(va), PagesTouched(va, sz)), pa, perm).0,
                      Range(va, PagesStepped(sz))) == m
            <==> (va % PG_SIZE + sz + PG_SIZE - 1) / PG_SIZE == (sz + PG_SIZE - 1) / PG_SIZE
  {
    PageCounts(va, sz);
    var n, u := PagesTouched(va, sz), PagesStepped(sz);
    var pages, less := Range(Floor(va), n), Range(Floor(va), u);
    RangePrefix(Floor(va), u, n);
    var m' := MapSpec(m, pages, pa, perm).0;
    MapSucceedsIff(m, pages, pa, perm);
    MapAddsRange(m, pages, pa, perm);
    UnmapRemovesRange(m', less);
    SamePages(va, u);
    var r := UnmapSpec(m', less);
    assert forall v | v in m :: v !in less;
    if n == u {
      assert r == m;
    } else {
      assert pages[u] in m' && pages[u] !in less && pages[u] !in m;
      assert pages[u] in r;
    }
  }
}
