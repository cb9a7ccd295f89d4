/** A three-level table tree in memory, and the finite map it stands for. */
module RadixTree {
  import opened Pages
  import opened Pte

  type Mem = map<nat, seq<nat>>     // page address -> its 512 words
  type Paths = map<nat, seq<nat>>   // table page -> indices leading to it from the root

  ghost predicate EntryOk(mem: Mem, path: Paths, p: nat, i: nat)
    requires p in mem && p in path && i < |mem[p]|
  {
    var e := mem[p][i];
    && (e == 0 || IsValid(e))
    && (e != 0 && |path[p]| < 2 ==>
          PteToPa(e) in mem && PteToPa(e) in path && path[PteToPa(e)] == path[p] + [i])
  }

  ghost predicate PointsTo(mem: Mem, path: Paths, p: nat, i: nat, q: nat) {
    && p in mem && p in path && i < |mem[p]| && |path[p]| < 2
    && IsValid(mem[p][i]) && PteToPa(mem[p][i]) == q
  }

  ghost predicate HasParent(mem: Mem, path: Paths, q: nat) {
    exists p, i: nat :: PointsTo(mem, path, p, i, q)
  }

  predicate SamePage(path: Paths, p: nat, q: nat) {
    p in path && q in path && path[p] == path[q] ==> p == q
  }

  ghost predicate PageOk(mem: Mem, path: Paths, p: nat)
    requires p in mem && p in path
  {
    && |mem[p]| == PTE_NUM && 0 < p < FRAME_LIMIT && p % PG_SIZE == 0
    && |path[p]| <= 2 && forall k | 0 <= k < |path[p]| :: path[p][k] < PTE_NUM
  }

  /** Every table page is reached from the root by exactly one path. */
  ghost predicate Shape(mem: Mem, path: Paths, root: nat) {
    && root in mem && path.Keys == mem.Keys && path[root] == []
    && (forall p {:trigger PageOk(mem, path, p)} | p in mem :: PageOk(mem, path, p))
    && (forall p, i: nat {:trigger EntryOk(mem, path, p, i)} | p in mem && i < PTE_NUM ::
          i < |mem[p]| && EntryOk(mem, path, p, i))
    && (forall p, q {:trigger SamePage(path, p, q)} | p in mem && q in mem :: SamePage(path, p, q))
    && (forall q {:trigger HasParent(mem, path, q)} | q in mem && q != root :: HasParent(mem, path, q))
  }

  function Word(mem: Mem, p: nat, i: nat): nat {
    if p in mem && i < |mem[p]| then mem[p][i] else 0
  }

  function Step(mem: Mem, p: nat, i: nat): nat {
    if IsValid(Word(mem, p, i)) then PteToPa(Word(mem, p, i)) else 0
  }

  /** The level-0 table that serves page v; 0 when the path stops earlier. */
  function LeafTable(mem: Mem, root: nat, v: nat): nat
    requires v < VPNS
  {
    var p := Step(mem, root, Index(v, 2));
    if p == 0 then 0 else Step(mem, p, Index(v, 1))
  }

  function Leaf(mem: Mem, root: nat, v: nat): nat
    requires v < VPNS
  {
    var t := LeafTable(mem, root, v);
    if t == 0 then 0 else Word(mem, t, Index(v, 0))
  }

  /** m maps exactly the pages whose level-0 entry is valid, to that entry. */
  ghost predicate Represents(mem: Mem, root: nat, m: map<nat, nat>) {
    && (forall v {:trigger v in m} | v in m :: v < VPNS)
    && (forall v: nat {:trigger Leaf(mem, root, v)} | v < VPNS ::
          && (v in m <==> IsValid(Leaf(mem, root, v)))
          && (v in m ==> m[v] == Leaf(mem, root, v)))
  }

  lemma LeafTablePath(mem: Mem, path: Paths, root: nat, v: nat)
    requires Shape(mem, path, root) && v < VPNS
    ensures var p1 := Step(mem, root, Index(v, 2));
            p1 != 0 ==> p1 in mem && path[p1] == [Index(v, 2)]
    ensures var t := LeafTable(mem, root, v);
            t != 0 ==> t in mem && path[t] == [Index(v, 2), Index(v, 1)]
  {
    var i2, i1 := Index(v, 2), Index(v, 1);
    assert PageOk(mem, path, root) && EntryOk(mem, path, root, i2);
    var p1 := Step(mem, root, i2);
    if p1 != 0 {
      assert PageOk(mem, path, p1) && EntryOk(mem, path, p1, i1);
    }
  }

  function Zeros(): (s: seq<nat>)
    ensures |s| == PTE_NUM && forall i: nat | i < PTE_NUM :: s[i] == 0
  {
    seq(PTE_NUM, i => 0)
  }

  function Linked(mem: Mem, p: nat, i: nat, c: nat): Mem
    requires p in mem && i < |mem[p]|
  {
    var words: seq<nat> := mem[p][i := MakePte(c, 0)];
    mem[c := Zeros()][p := words]
  }

  /** No page sits on the path of an empty upper entry. */
  lemma EmptyEntryIsFree(mem: Mem, path: Paths, root: nat, p: nat, i: nat, q: nat)
    requires Shape(mem, path, root) && p in mem && i < PTE_NUM && q in mem
    requires PageOk(mem, path, p) && mem[p][i] == 0
    ensures path[q] != path[p] + [i]
  {
    if path[q] == path[p] + [i] {
      assert HasParent(mem, path, q);
      var a, j: nat :| PointsTo(mem, path, a, j, q);
      assert PageOk(mem, path, a) && EntryOk(mem, path, a, j);
      assert SamePage(path, a, p);
      AppendInjective(path[a], path[p], j, i);
      assert false;
    }
  }

  lemma AppendInjective(s: seq<nat>, t: seq<nat>, i: nat, j: nat)
    ensures s + [i] == t + [j] ==> s == t && i == j
  {
    if s + [i] == t + [j] {
      assert s == (s + [i])[..|s|] && i == (s + [i])[|s|];
      assert t == (t + [j])[..|t|] && j == (t + [j])[|t|];
    }
  }

  ghost predicate Fresh(mem: Mem, c: nat) {
    c !in mem && 0 < c < FRAME_LIMIT && c % PG_SIZE == 0
  }

  lemma FreshWord(c: nat)
    requires 0 < c < FRAME_LIMIT && c % PG_SIZE == 0
    ensures IsValid(MakePte(c, 0)) && PteToPa(MakePte(c, 0)) == c
  {
    PteRoundTrip(c, 0);
  }

  lemma LinkEntries(mem: Mem, path: Paths, root: nat, p: nat, i: nat, c: nat, q: nat, j: nat)
    requires Shape(mem, path, root) && p in mem && i < PTE_NUM && |path[p]| < 2
    requires PageOk(mem, path, p) && mem[p][i] == 0 && Fresh(mem, c)
    requires (q in mem || q == c) && j < PTE_NUM
    ensures var (mem', path') := (Linked(mem, p, i, c), path[c := path[p] + [i]]);
            q in mem' && q in path' && PageOk(mem', path', q) && EntryOk(mem', path', q, j)
  {
    FreshWord(c);
    if q != c { assert PageOk(mem, path, q) && EntryOk(mem, path, q, j); }
  }

  lemma LinkParent(mem: Mem, path: Paths, root: nat, p: nat, i: nat, c: nat, q: nat)
    requires Shape(mem, path, root) && p in mem && i < PTE_NUM && |path[p]| < 2
    requires PageOk(mem, path, p) && mem[p][i] == 0 && Fresh(mem, c)
    requires (q in mem && q != root) || q == c
    ensures HasParent(Linked(mem, p, i, c), path[c := path[p] + [i]], q)
  {
    var mem', path' := Linked(mem, p, i, c), path[c := path[p] + [i]];
    FreshWord(c);
    if q == c {
      assert PointsTo(mem', path', p, i, c);
    } else {
      assert HasParent(mem, path, q);
      var a, j: nat :| PointsTo(mem, path, a, j, q);
      assert PointsTo(mem', path', a, j, q);
    }
  }

  /** Hanging a fresh zeroed table under an empty upper entry keeps the shape. */
  lemma LinkShape(mem: Mem, path: Paths, root: nat, p: nat, i: nat, c: nat)
    requires Shape(mem, path, root) && p in mem && i < PTE_NUM && |path[p]| < 2
    requires PageOk(mem, path, p) && mem[p][i] == 0 && Fresh(mem, c)
    ensures Shape(Linked(mem, p, i, c), path[c := path[p] + [i]], root)
    ensures Step(Linked(mem, p, i, c), p, i) == c
  {
    var mem', path' := Linked(mem, p, i, c), path[c := path[p] + [i]];
    FreshWord(c);
    assert mem'.Keys == mem.Keys + {c} == path'.Keys;
    forall q | q in mem'
      ensures PageOk(mem', path', q)
    {
      LinkEntries(mem, path, root, p, i, c, q, 0);
    }
    forall q, j: nat | q in mem' && j < PTE_NUM
      ensures j < |mem'[q]| && EntryOk(mem', path', q, j)
    {
      LinkEntries(mem, path, root, p, i, c, q, j);
    }
    forall q | q in mem' && q != root
      ensures HasParent(mem', path', q)
    {
      LinkParent(mem, path, root, p, i, c, q);
    }
    forall a, b | a in mem' && b in mem'
      ensures SamePage(path', a, b)
    {
      if a in mem && b in mem { assert SamePage(path, a, b); }
      if a in mem { EmptyEntryIsFree(mem, path, root, p, i, a); }
      if b in mem { EmptyEntryIsFree(mem, path, root, p, i, b); }
    }
  }

  /** ... and translates every page as before. */
  lemma LinkKeepsMap(mem: Mem, path: Paths, root: nat, p: nat, i: nat, c: nat, m: map<nat, nat>)
    requires Shape(mem, path, root) && p in mem && i < PTE_NUM && |path[p]| < 2
    requires PageOk(mem, path, p) && mem[p][i] == 0 && Fresh(mem, c)
    requires Represents(mem, root, m)
    ensures Represents(Linked(mem, p, i, c), root, m)
  {
    var mem' := Linked(mem, p, i, c);
    FreshWord(c);
    forall v: nat | v < VPNS
      ensures Leaf(mem', root, v) == Leaf(mem, root, v)
    {
      LeafTablePath(mem, path, root, v);
      assert PageOk(mem, path, root);
      var p1 := Step(mem, root, Index(v, 2));
      if p1 != 0 { assert PageOk(mem, path, p1); }
    }
  }

  /* ---- which tables there are ---- */

  /** Level-1 tables, by the entry of the root. */
  ghost function Tops(mem: Mem, root: nat): set<nat> {
    set i: nat | i < PTE_NUM && Step(mem, root, i) != 0
  }

  /** The level-0 table for the 512 pages from page 512 k on. */
  function TableAt(mem: Mem, root: nat, k: nat): nat {
    var p := Step(mem, root, k / 512);
    if p == 0 then 0 else Step(mem, p, k % 512)
  }

  ghost function Leafs(mem: Mem, root: nat): set<nat> {
    set k: nat | k < 0x4_0000 && TableAt(mem, root, k) != 0
  }

  lemma TablePrefix(mem: Mem, root: nat, v: nat)
    requires v < VPNS
    ensures Index(v, 2) == v / 0x4_0000 == (v / 512) / 512 && Index(v, 1) == (v / 512) % 512 && v / 512 < 0x4_0000
    ensures LeafTable(mem, root, v) == TableAt(mem, root, v / 512)
  {
  }

  lemma LinkedKeys(mem: Mem, p: nat, i: nat, c: nat)
    requires p in mem && i < |mem[p]|
    ensures Linked(mem, p, i, c).Keys == mem.Keys + {c}
  {
  }

  lemma LinkedSteps(mem: Mem, path: Paths, root: nat, p: nat, i: nat, c: nat, q: nat, j: nat)
    requires Shape(mem, path, root) && p in mem && i < PTE_NUM && PageOk(mem, path, p) && mem[p][i] == 0
             && Fresh(mem, c)
    requires q in mem && j < PTE_NUM
    ensures Step(Linked(mem, p, i, c), q, j) == if q == p && j == i then c else Step(mem, q, j)
  {
    FreshWord(c);
    assert PageOk(mem, path, q);
  }

  /** The level-1 table named in an entry of the root. */
  lemma TopPath(mem: Mem, path: Paths, root: nat, j: nat)
    requires Shape(mem, path, root) && j < PTE_NUM && Step(mem, root, j) != 0
    ensures Step(mem, root, j) in mem && path[Step(mem, root, j)] == [j]
  {
    assert PageOk(mem, path, root) && EntryOk(mem, path, root, j);
  }

  /** A table hung under entry i of the root serves no page yet. */
  lemma LinkTop(mem: Mem, path: Paths, root: nat, i: nat, c: nat)
    requires Shape(mem, path, root) && i < PTE_NUM && PageOk(mem, path, root) && mem[root][i] == 0 && Fresh(mem, c)
    ensures Tops(Linked(mem, root, i, c), root) == Tops(mem, root) + {i} && i !in Tops(mem, root)
    ensures Leafs(Linked(mem, root, i, c), root) == Leafs(mem, root)
  {
    var mem' := Linked(mem, root, i, c);
    forall j: nat | j < PTE_NUM
      ensures Step(mem', root, j) == (if j == i then c else Step(mem, root, j)) && (j == i ==> Step(mem, root, j) == 0)
    {
      LinkedSteps(mem, path, root, root, i, c, root, j);
    }
    forall k: nat | k < 0x4_0000
      ensures TableAt(mem', root, k) == TableAt(mem, root, k)
    {
      TableBelowTop(mem, path, root, i, c, k);
    }
    assert 0 < c;
    hide Step, TableAt, Linked, Shape;
    assert Tops(mem', root) == Tops(mem, root) + {i};
    assert Leafs(mem', root) == Leafs(mem, root);
  }

  lemma TableBelowTop(mem: Mem, path: Paths, root: nat, i: nat, c: nat, k: nat)
    requires Shape(mem, path, root) && i < PTE_NUM && PageOk(mem, path, root) && mem[root][i] == 0 && Fresh(mem, c)
    requires k < 0x4_0000
    ensures TableAt(Linked(mem, root, i, c), root, k) == TableAt(mem, root, k)
  {
    LinkedSteps(mem, path, root, root, i, c, root, k / 512);
    var q := Step(mem, root, k / 512);
    if q != 0 {
      TopPath(mem, path, root, k / 512);
      LinkedSteps(mem, path, root, root, i, c, q, k % 512);
    }
  }

  lemma TableElsewhere(mem: Mem, path: Paths, root: nat, p: nat, i: nat, c: nat, l: nat)
    requires Shape(mem, path, root) && p in mem && i < PTE_NUM && PageOk(mem, path, p) && mem[p][i] == 0
             && Fresh(mem, c)
    requires |path[p]| == 1 && Step(mem, root, path[p][0]) == p && l < 0x4_0000
    ensures TableAt(Linked(mem, p, i, c), root, l) == if l == 512 * path[p][0] + i then c else TableAt(mem, root, l)
    ensures l == 512 * path[p][0] + i ==> TableAt(mem, root, l) == 0
  {
    LinkedSteps(mem, path, root, p, i, c, root, l / 512);
    var q := Step(mem, root, l / 512);
    if q != 0 {
      TopPath(mem, path, root, l / 512);
      LinkedSteps(mem, path, root, p, i, c, q, l % 512);
    }
    assert Step(mem, p, i) == 0 by { assert !IsValid(mem[p][i]); }
    hide Step, Linked, Shape;
  }

  /** One hung under entry i of the level-1 table p serves 512 pages. */
  lemma LinkLeaf(mem: Mem, path: Paths, root: nat, p: nat, i: nat, c: nat)
    requires Shape(mem, path, root) && p in mem && i < PTE_NUM && PageOk(mem, path, p) && mem[p][i] == 0
             && Fresh(mem, c)
    requires |path[p]| == 1 && Step(mem, root, path[p][0]) == p && path[p][0] < PTE_NUM
    ensures var mem', k := Linked(mem, p, i, c), 512 * path[p][0] + i;
            Tops(mem', root) == Tops(mem, root) && Leafs(mem', root) == Leafs(mem, root) + {k} && k !in Leafs(mem, root)
  {
    assert root in mem && p != root;
    var mem', k := Linked(mem, p, i, c), 512 * path[p][0] + i;
    forall j: nat | j < PTE_NUM
      ensures Step(mem', root, j) == Step(mem, root, j)
    {
      LinkedSteps(mem, path, root, p, i, c, root, j);
    }
    forall l: nat | l < 0x4_0000
      ensures TableAt(mem', root, l) == (if l == k then c else TableAt(mem, root, l))
              && (l == k ==> TableAt(mem, root, l) == 0)
    {
      TableElsewhere(mem, path, root, p, i, c, l);
    }
    assert 0 < c;
    hide Step, TableAt, Linked, Shape;
    assert Leafs(mem', root) == Leafs(mem, root) + {k};
  }

  /** An upper entry is empty or leads to a table. */
  lemma UpperEntry(mem: Mem, path: Paths, root: nat, p: nat, i: nat)
    requires Shape(mem, path, root) && p in mem && i < PTE_NUM && p in path && |path[p]| < 2
    ensures PageOk(mem, path, p) && |mem[p]| == PTE_NUM
    ensures if IsValid(mem[p][i]) then PteToPa(mem[p][i]) == Step(mem, p, i) != 0 && Step(mem, p, i) in mem
                                       && Step(mem, p, i) in path && path[Step(mem, p, i)] == path[p] + [i]
            else mem[p][i] == 0 && Step(mem, p, i) == 0
  {
    assert PageOk(mem, path, p) && EntryOk(mem, path, p, i);
    if IsValid(mem[p][i]) { assert PageOk(mem, path, PteToPa(mem[p][i])); }
  }

  /** A table that is there is among the tables. */
  lemma Counted(mem: Mem, path: Paths, root: nat, p: nat, i: nat)
    requires Shape(mem, path, root) && p in mem && i < PTE_NUM && p in path && |path[p]| < 2 && Step(mem, p, i) != 0
    requires if path[p] == [] then p == root else Step(mem, root, path[p][0]) == p
    ensures if path[p] == [] then Tops(mem, root) == Tops(mem, root) + {i}
            else Leafs(mem, root) == Leafs(mem, root) + {512 * path[p][0] + i}
  {
    UpperEntry(mem, path, root, p, i);
    var k := 512 * (if path[p] == [] then 0 else path[p][0]) + i;
    assert k % 512 == i && k / 512 == (if path[p] == [] then 0 else path[p][0]);
    assert path[p] != [] ==> TableAt(mem, root, k) != 0;
  }

  lemma Unserved(mem: Mem, root: nat, v: nat, m: map<nat, nat>)
    requires Represents(mem, root, m) && v < VPNS && LeafTable(mem, root, v) == 0
    ensures v !in m
  {
    assert Leaf(mem, root, v) == 0;
  }

  function Stored(mem: Mem, t: nat, i: nat, pte: nat): Mem
    requires t in mem && i < |mem[t]|
  {
    var words: seq<nat> := mem[t][i := pte];
    mem[t := words]
  }

  lemma StoreElsewhere(mem: Mem, path: Paths, root: nat, v: nat, pte: nat, w: nat)
    requires Shape(mem, path, root) && v < VPNS && w < VPNS
    requires LeafTable(mem, root, v) != 0
    requires var t := LeafTable(mem, root, v); t in mem && |mem[t]| == PTE_NUM
    ensures var t := LeafTable(mem, root, v);
            var mem' := Stored(mem, t, Index(v, 0), pte);
            && LeafTable(mem', root, w) == LeafTable(mem, root, w)
            && Leaf(mem', root, w) == (if w == v then pte else Leaf(mem, root, w))
  {
    var t := LeafTable(mem, root, v);
    LeafTablePath(mem, path, root, v);
    LeafTablePath(mem, path, root, w);
    var s := LeafTable(mem, root, w);
    if s == t && Index(w, 0) == Index(v, 0) {
      assert path[t][0] == Index(v, 2) == Index(w, 2) && path[t][1] == Index(v, 1) == Index(w, 1);
      SameIndices(v, w);
    }
  }

  /** Writing one level-0 entry changes one page of the map. */
  lemma StoreLeaf(mem: Mem, path: Paths, root: nat, v: nat, pte: nat, m: map<nat, nat>)
    requires Shape(mem, path, root) && v < VPNS
    requires LeafTable(mem, root, v) != 0 && (pte == 0 || IsValid(pte))
    requires Represents(mem, root, m)
    ensures var t := LeafTable(mem, root, v);
            && t in mem && |mem[t]| == PTE_NUM
            && (var mem' := Stored(mem, t, Index(v, 0), pte);
                && Shape(mem', path, root)
                && Represents(mem', root, if pte == 0 then m - {v} else m[v := pte]))
  {
    LeafTablePath(mem, path, root, v);
    var t := LeafTable(mem, root, v);
    assert PageOk(mem, path, t);
    var mem' := Stored(mem, t, Index(v, 0), pte);
    StoreShape(mem, path, root, t, Index(v, 0), pte);
    forall w: nat | w < VPNS
      ensures Leaf(mem', root, w) == if w == v then pte else Leaf(mem, root, w)
    {
      StoreElsewhere(mem, path, root, v, pte, w);
    }
  }

  lemma StoreShape(mem: Mem, path: Paths, root: nat, t: nat, i: nat, pte: nat)
    requires Shape(mem, path, root) && t in mem && i < PTE_NUM && |mem[t]| == PTE_NUM
    requires |path[t]| == 2 && (pte == 0 || IsValid(pte))
    ensures Shape(Stored(mem, t, i, pte), path, root)
  {
    var mem' := Stored(mem, t, i, pte);
    assert mem'.Keys == mem.Keys;
    forall q | q in mem'
      ensures PageOk(mem', path, q)
    {
      assert PageOk(mem, path, q);
    }
    forall q, j: nat | q in mem' && j < PTE_NUM
      ensures |mem'[q]| == PTE_NUM && EntryOk(mem', path, q, j)
    {
      assert PageOk(mem, path, q) && EntryOk(mem, path, q, j);
    }
    forall q | q in mem && q != root
      ensures HasParent(mem', path, q)
    {
      assert HasParent(mem, path, q);
      var a, j: nat :| PointsTo(mem, path, a, j, q);
      assert PointsTo(mem', path, a, j, q);
    }
  }

  /** ... and adds or removes no table. */
  lemma StoreKeepsTables(mem: Mem, path: Paths, root: nat, v: nat, pte: nat)
    requires Shape(mem, path, root) && v < VPNS && LeafTable(mem, root, v) != 0
    requires var t := LeafTable(mem, root, v); t in mem && |mem[t]| == PTE_NUM
    ensures var mem' := Stored(mem, LeafTable(mem, root, v), Index(v, 0), pte);
            Tops(mem', root) == Tops(mem, root) && Leafs(mem', root) == Leafs(mem, root)
  {
    hide Step, TableAt, Stored, Shape, LeafTable;
    var mem' := Stored(mem, LeafTable(mem, root, v), Index(v, 0), pte);
    forall i: nat | i < PTE_NUM
      ensures Step(mem', root, i) == Step(mem, root, i)
    {
      StoreKeepsTop(mem, path, root, v, pte, i);
    }
    forall k: nat | k < 0x4_0000
      ensures TableAt(mem', root, k) == TableAt(mem, root, k)
    {
      StoreElsewhere(mem, path, root, v, pte, 512 * k);
      TablePrefix(mem, root, 512 * k);
      TablePrefix(mem', root, 512 * k);
    }
    assert Tops(mem', root) == Tops(mem, root);
    assert Leafs(mem', root) == Leafs(mem, root);
  }

  lemma StoreKeepsTop(mem: Mem, path: Paths, root: nat, v: nat, pte: nat, i: nat)
    requires Shape(mem, path, root) && v < VPNS && LeafTable(mem, root, v) != 0 && i < PTE_NUM
    requires var t := LeafTable(mem, root, v); t in mem && |mem[t]| == PTE_NUM
    ensures Step(Stored(mem, LeafTable(mem, root, v), Index(v, 0), pte), root, i) == Step(mem, root, i)
  {
    LeafTablePath(mem, path, root, v);
    assert LeafTable(mem, root, v) != root;
  }

  /** The table pages at or below the page whose path is s. */
  ghost function Below(path: Paths, s: seq<nat>): set<nat> {
    set q | q in path && s <= path[q]
  }

  /** The table pages below the first n entries of that page. */
  ghost function BelowEntries(path: Paths, s: seq<nat>, n: nat): set<nat> {
    set q | q in path && s < path[q] && path[q][|s|] < n
  }

  /** No level-0 entry is in use. */
  ghost predicate NoLeaves(mem: Mem, path: Paths) {
    forall q, i: nat | q in mem && q in path && |path[q]| == 2 && i < |mem[q]| :: !IsValid(mem[q][i])
  }

  /** A table with this path is where the entries lead to. */
  lemma LeafTableOf(mem: Mem, path: Paths, root: nat, q: nat)
    requires Shape(mem, path, root) && q in mem && |path[q]| == 2
    ensures path[q][0] < PTE_NUM && path[q][1] < PTE_NUM && TableAt(mem, root, 512 * path[q][0] + path[q][1]) == q
  {
    assert PageOk(mem, path, q) && HasParent(mem, path, q);
    var p, i: nat :| PointsTo(mem, path, p, i, q);
    assert PageOk(mem, path, p) && EntryOk(mem, path, p, i) && p != root;
    assert HasParent(mem, path, p);
    var r, j: nat :| PointsTo(mem, path, r, j, p);
    assert PageOk(mem, path, r) && EntryOk(mem, path, r, j) && SamePage(path, r, root);
    assert path[q] == [j] + [i] && Step(mem, root, j) == p && Step(mem, p, i) == q;
    var k := 512 * j + i;
    assert k / 512 == j && k % 512 == i;
  }

  /** A tree that maps nothing has no leaf entry. */
  lemma EmptyHasNoLeaves(mem: Mem, path: Paths, root: nat)
    requires Shape(mem, path, root) && Represents(mem, root, map[])
    ensures NoLeaves(mem, path)
  {
    forall q, i: nat | q in mem && q in path && |path[q]| == 2 && i < |mem[q]|
      ensures !IsValid(mem[q][i])
    {
      assert PageOk(mem, path, q);
      LeafTableOf(mem, path, root, q);
      var k := 512 * path[q][0] + path[q][1];
      var v := 512 * k + i;
      assert v / 512 == k && Index(v, 0) == i;
      TablePrefix(mem, root, v);
      assert Leaf(mem, root, v) == mem[q][i];
    }
  }

  lemma AllBelowRoot(mem: Mem, path: Paths, root: nat)
    requires Shape(mem, path, root)
    ensures root in path && Below(path, path[root]) == mem.Keys
  {
  }

  /** Nothing hangs below an empty entry. */
  lemma NothingBelowEmpty(mem: Mem, path: Paths, root: nat, p: nat, i: nat, q: nat)
    requires Shape(mem, path, root) && p in mem && i < PTE_NUM && q in mem
    requires PageOk(mem, path, p) && mem[p][i] == 0
    ensures !(path[p] + [i] <= path[q])
  {
    EmptyEntryIsFree(mem, path, root, p, i, q);
    if path[p] + [i] <= path[q] {
      assert PageOk(mem, path, q) && HasParent(mem, path, q);
      var a, j: nat :| PointsTo(mem, path, a, j, q);
      assert PageOk(mem, path, a) && EntryOk(mem, path, a, j);
      EmptyEntryIsFree(mem, path, root, p, i, a);
    }
  }

  lemma EntrySplit(path: Paths, s: seq<nat>, i: nat)
    ensures BelowEntries(path, s, i + 1) == BelowEntries(path, s, i) + Below(path, s + [i])
    ensures BelowEntries(path, s, i) !! Below(path, s + [i])
  {
    forall q | q in path
      ensures s + [i] <= path[q] <==> s < path[q] && path[q][|s|] == i
    {
    }
  }

  lemma AllEntries(mem: Mem, path: Paths, root: nat, p: nat)
    requires Shape(mem, path, root) && p in mem
    ensures Below(path, path[p]) == BelowEntries(path, path[p], PTE_NUM) + {p}
    ensures p !in BelowEntries(path, path[p], PTE_NUM)
  {
    forall q | q in path && path[p] <= path[q]
      ensures q == p || q in BelowEntries(path, path[p], PTE_NUM)
    {
      assert PageOk(mem, path, q) && SamePage(path, p, q);
    }
  }
}
