/** How many tables `mappages` takes for a range of pages: one for every 512 pages
    without a level-0 table, one for every 2^18 without a level-1 table. */
module TableNeed {
  import opened Pages
  import opened Pte
  import opened PageMap

  const LEAF_SPAN: nat := 512
  const TOP_SPAN: nat := 0x4_0000

  /** The tables that `walk` takes for page v, given the tables there are. */
  ghost function Missing(tops: set<nat>, leafs: set<nat>, v: nat): nat {
    (if v / TOP_SPAN in tops then 0 else 1) + (if v / LEAF_SPAN in leafs then 0 else 1)
  }

  /** The groups of span pages that the pages meet. */
  ghost function Groups(pages: seq<nat>, span: nat): set<nat>
    requires span > 0
  {
    if pages == [] then {} else {pages[0] / span} + Groups(pages[1..], span)
  }

  /** The tables that mapping all the pages takes. */
  ghost function Need(tops: set<nat>, leafs: set<nat>, pages: seq<nat>): nat {
    |Groups(pages, TOP_SPAN) - tops| + |Groups(pages, LEAF_SPAN) - leafs|
  }

  lemma LessOne(s: set<nat>, t: set<nat>, x: nat)
    ensures |(s + {x}) - t| == |s - (t + {x})| + (if x in t then 0 else 1)
  {
    if x in t {
      assert (s + {x}) - t == s - (t + {x});
    } else {
      assert (s + {x}) - t == (s - (t + {x})) + {x};
    }
  }

  lemma NeedNothing(tops: set<nat>, leafs: set<nat>)
    ensures Need(tops, leafs, []) == 0
  {
  }

  /** The walk for the first page takes what is missing there; the rest needs the
      rest. */
  lemma NeedFirst(tops: set<nat>, leafs: set<nat>, pages: seq<nat>)
    requires pages != []
    ensures Need(tops, leafs, pages)
         == Missing(tops, leafs, pages[0])
            + Need(tops + {pages[0] / TOP_SPAN}, leafs + {pages[0] / LEAF_SPAN}, pages[1..])
  {
    var a, b := pages[0] / TOP_SPAN, pages[0] / LEAF_SPAN;
    var s, t := Groups(pages[1..], TOP_SPAN), Groups(pages[1..], LEAF_SPAN);
    assert Groups(pages, TOP_SPAN) == s + {a} && Groups(pages, LEAF_SPAN) == t + {b};
    hide Groups;
    LessOne(s, tops, a);
    LessOne(t, leafs, b);
  }

  /** Pages of one aligned group share it, also where page numbers wrap. */
  lemma SameGroup(x: nat, span: nat)
    requires span == LEAF_SPAN || span == TOP_SPAN
    ensures x / span <= (x + 1) / span
    ensures x / span == (x + 1) / span ==> (x % VPNS) / span == ((x + 1) % VPNS) / span
  {
    if span == LEAF_SPAN { SameLeaf(x); } else { SameTop(x); }
  }

  lemma SameLeaf(x: nat)
    ensures x / LEAF_SPAN == (x + 1) / LEAF_SPAN ==> (x % VPNS) / LEAF_SPAN == ((x + 1) % VPNS) / LEAF_SPAN
  {
    assert x / LEAF_SPAN == (x % VPNS) / LEAF_SPAN + 0x4_0000 * (x / VPNS);
    assert (x + 1) / LEAF_SPAN == ((x + 1) % VPNS) / LEAF_SPAN + 0x4_0000 * ((x + 1) / VPNS);
  }

  lemma SameTop(x: nat)
    ensures x / TOP_SPAN == (x + 1) / TOP_SPAN ==> (x % VPNS) / TOP_SPAN == ((x + 1) % VPNS) / TOP_SPAN
  {
    assert x / TOP_SPAN == (x % VPNS) / TOP_SPAN + 512 * (x / VPNS);
    assert (x + 1) / TOP_SPAN == ((x + 1) % VPNS) / TOP_SPAN + 512 * ((x + 1) / VPNS);
  }

  lemma OneMore(s: set<nat>, x: nat)
    ensures |{x} + s| == |s| + if x in s then 0 else 1
  {
    if x in s { assert {x} + s == s; }
  }

  /** n consecutive pages meet as many groups as their ends are apart. */
  lemma {:induction false} GroupsBound(i: nat, n: nat, span: nat)
    requires (span == LEAF_SPAN || span == TOP_SPAN) && n > 0
    ensures |Groups(Range(i, n), span)| <= (i / PG_SIZE + n - 1) / span - (i / PG_SIZE) / span + 1
    decreases n
  {
    var x := i / PG_SIZE;
    var pages, rest := Range(i, n), Range(i + PG_SIZE, n - 1);
    assert pages[0] == Vpn(i) && pages[1..] == rest && (i + PG_SIZE) / PG_SIZE == x + 1;
    SameGroup(x, span);
    assert Groups(pages, span) == {Vpn(i) / span} + Groups(rest, span);
    if n > 1 {
      assert rest[0] == Vpn(i + PG_SIZE) && Groups(rest, span) == {rest[0] / span} + Groups(rest[1..], span);
      GroupsBound(i + PG_SIZE, n - 1, span);
      OneMore(Groups(rest, span), Vpn(i) / span);
    }
  }

  lemma NeedAtMost(tops: set<nat>, leafs: set<nat>, pages: seq<nat>, a: nat, b: nat)
    requires |Groups(pages, TOP_SPAN)| <= a && |Groups(pages, LEAF_SPAN)| <= b
    ensures Need(tops, leafs, pages) <= a + b
  {
    Fewer(Groups(pages, TOP_SPAN), tops);
    Fewer(Groups(pages, LEAF_SPAN), leafs);
  }

  lemma Fewer(s: set<nat>, t: set<nat>)
    ensures |s - t| <= |s|
  {
    assert s == (s - t) + (s * t);
  }

  /** Mapping n pages takes about n / 512 tables, whatever tables there are. */
  lemma NeedBound(tops: set<nat>, leafs: set<nat>, i: nat, n: nat)
    ensures Need(tops, leafs, Range(i, n)) <= n / LEAF_SPAN + n / TOP_SPAN + 4
  {
    if n > 0 {
      GroupsBound(i, n, LEAF_SPAN);
      GroupsBound(i, n, TOP_SPAN);
      Spread(i / PG_SIZE, n);
      NeedAtMost(tops, leafs, Range(i, n), n / TOP_SPAN + 2, n / LEAF_SPAN + 2);
    } else {
      assert Groups([], TOP_SPAN) == {} && Groups([], LEAF_SPAN) == {};
    }
  }

  lemma Spread(x: nat, n: nat)
    requires n > 0
    ensures (x + n - 1) / LEAF_SPAN - x / LEAF_SPAN + 1 <= n / LEAF_SPAN + 2
    ensures (x + n - 1) / TOP_SPAN - x / TOP_SPAN + 1 <= n / TOP_SPAN + 2
  {
  }

  /** The largest range the kernel maps, its 128 MiB of memory: 68 tables at
      most for 32768 pages. */
  lemma KernelMemoryNeed(tops: set<nat>, leafs: set<nat>, va: nat, sz: nat)
    requires 0x8000_0000 <= va && va + sz <= 0x8800_0000 && sz > 0
    ensures Need(tops, leafs, Range(Floor(va), PagesTouched(va, sz))) <= 68
  {
    NeedBound(tops, leafs, Floor(va), PagesTouched(va, sz));
  }
}
