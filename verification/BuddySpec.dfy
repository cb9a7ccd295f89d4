/** What the buddy tree means. Nodes are numbered as in the array: 1 is the
    root, 2i and 2i+1 are the halves of i. A tree of height h covers Pow2(h)
    pages; the leaf of page p is node Pow2(h) + p. A live block is named by the
    node that was handed out. */
module BuddySpec {
  import opened Arith
  import opened Bits

  predicate IsNode(h: nat, i: nat) {
    i >= 1 && Len(i) <= h + 1
  }

  function NodeSize(h: nat, i: nat): (s: nat)
    requires IsNode(h, i)
    ensures s >= 1
  {
    Pow2(h + 1 - Len(i))
  }

  /** First page of node i. */
  function Offset(h: nat, i: nat): (o: int)
    requires IsNode(h, i)
  {
    i * NodeSize(h, i) - Pow2(h)
  }

  /** a is i or an ancestor of i. */
  predicate Anc(a: nat, i: nat)
    decreases i
  {
    a == i || (0 < a < i && Anc(a, i / 2))
  }

  /** No live block inside node i. */
  ghost predicate Clear(live: set<nat>, i: nat) {
    forall l | l in live :: !Anc(i, l)
  }

  /** Node i lies strictly inside a live block. */
  ghost predicate Under(live: set<nat>, i: nat) {
    exists l :: l in live && l != i && Anc(l, i)
  }

  /** Every live block is a node, and none lies inside another. */
  ghost predicate WellFormed(h: nat, live: set<nat>) {
    && (forall l | l in live :: IsNode(h, l))
    && (forall a, b | a in live && b in live && Anc(a, b) :: a == b)
  }

  function Max(a: nat, b: nat): nat { if a > b then a else b }

  /** The value the tree must hold at node i: one function of the live set. */
  ghost function Want(h: nat, live: set<nat>, i: nat): nat
    requires IsNode(h, i)
    decreases h + 1 - Len(i)
  {
    if i in live then 0
    else if Clear(live, i) || Under(live, i) || Len(i) == h + 1 then NodeSize(h, i)
    else Max(Want(h, live, 2 * i), Want(h, live, 2 * i + 1))
  }

  /* ---- ancestors ---- */

  lemma {:induction false} AncLen(a: nat, i: nat)
    requires Anc(a, i) && a >= 1
    ensures a <= i && Len(a) <= Len(i)
    ensures a != i ==> Len(a) < Len(i)
  {
    if a != i { AncLen(a, i / 2); }
  }

  lemma {:induction false} AncTrans(a: nat, b: nat, c: nat)
    requires a >= 1 && b >= 1 && Anc(a, b) && Anc(b, c)
    ensures Anc(a, c)
    decreases c
  {
    AncLen(a, b);
    AncLen(b, c);
    if b != c { AncTrans(a, b, c / 2); }
  }

  /** Two ancestors of one node are comparable. */
  lemma {:induction false} AncLinear(a: nat, b: nat, c: nat)
    requires a >= 1 && b >= 1 && Anc(a, c) && Anc(b, c)
    ensures Anc(a, b) || Anc(b, a)
    decreases c
  {
    if a != c && b != c { AncLinear(a, b, c / 2); }
  }

  lemma {:induction false} AncChild(i: nat, j: nat)
    requires i >= 1
    ensures Anc(i, j) <==> i == j || Anc(2 * i, j) || Anc(2 * i + 1, j)
    ensures Anc(2 * i, j) ==> !Anc(2 * i + 1, j)
    decreases j
  {
    if j > 1 {
      AncChild(i, j / 2);
      if Anc(2 * i, j) { AncLen(2 * i, j); }
      if Anc(2 * i + 1, j) { AncLen(2 * i + 1, j); }
      if Anc(i, j) { AncLen(i, j); }
    }
  }

  lemma {:induction false} RootAnc(i: nat)
    requires i >= 1
    ensures Anc(1, i)
  {
    if i > 1 { RootAnc(i / 2); }
  }

  lemma ChildNodes(h: nat, i: nat)
    requires IsNode(h, i) && Len(i) < h + 1
    ensures IsNode(h, 2 * i) && IsNode(h, 2 * i + 1)
    ensures Len(2 * i) == Len(i) + 1 == Len(2 * i + 1)
    ensures NodeSize(h, i) == 2 * NodeSize(h, 2 * i) == 2 * NodeSize(h, 2 * i + 1)
    ensures Offset(h, 2 * i) == Offset(h, i)
    ensures Offset(h, 2 * i + 1) == Offset(h, i) + NodeSize(h, 2 * i)
  {
    ChildLen(i);
    hide Len, Pow2;
    Pow2Pos(h + 1 - Len(i));
    ChildProducts(i, NodeSize(h, 2 * i));
  }

  lemma ChildLen(i: nat)
    requires i >= 1
    ensures Len(2 * i) == Len(i) + 1 == Len(2 * i + 1)
  {
  }

  lemma ChildProducts(i: nat, s: nat)
    ensures i * (2 * s) == (2 * i) * s && (2 * i + 1) * s == (2 * i) * s + s
  {
  }

  lemma ParentNode(h: nat, i: nat)
    requires IsNode(h, i) && i > 1
    ensures IsNode(h, i / 2) && Len(i / 2) == Len(i) - 1
    ensures NodeSize(h, i / 2) == 2 * NodeSize(h, i)
  {
    Pow2Pos(h + 1 - Len(i / 2));
  }

  /** The index bounds the code uses, and the node predicate. */
  lemma NodeRange(h: nat, i: nat)
    ensures IsNode(h, i) <==> 1 <= i < 2 * Pow2(h)
  {
    LenLe(i, h + 1);
  }

  /** A node's first page is a multiple of its size, and it ends inside the arena. */
  lemma OffsetBounds(h: nat, i: nat)
    requires IsNode(h, i)
    ensures Offset(h, i) == (i - Pow2(Len(i) - 1)) * NodeSize(h, i)
    ensures 0 <= Offset(h, i) && Offset(h, i) + NodeSize(h, i) <= Pow2(h)
  {
    LenBounds(i);
    Pow2Pos(Len(i));
    Pow2Add(Len(i) - 1, h + 1 - Len(i));
    OffsetProduct(i, Pow2(Len(i) - 1), NodeSize(h, i), Pow2(h));
  }

  lemma OffsetProduct(i: nat, p: nat, s: nat, n: nat)
    requires n == p * s && p <= i < 2 * p
    ensures i * s - n == (i - p) * s && 0 <= i * s - n && i * s - n + s <= n
  {
    var d := i - p;
    assert i * s == d * s + p * s;
    assert d * s >= 0;
    assert (p - d - 1) * s >= 0;
    assert p * s == (p - d - 1) * s + d * s + s;
  }

  /* ---- the cell function ---- */

  lemma {:induction false} WantBound(h: nat, live: set<nat>, i: nat)
    requires IsNode(h, i)
    ensures Want(h, live, i) <= NodeSize(h, i)
    decreases h + 1 - Len(i)
  {
    if i in live || Clear(live, i) || Under(live, i) || Len(i) == h + 1 {
    } else {
      ChildNodes(h, i);
      hide Offset, NodeSize, Len, Clear, Under;
      WantBound(h, live, 2 * i);
      WantBound(h, live, 2 * i + 1);
    }
  }

  lemma LeafAnc(h: nat, i: nat, j: nat)
    requires IsNode(h, j) && Len(i) == h + 1 && i >= 1 && Anc(i, j)
    ensures i == j
  {
    AncLen(i, j);
  }

  /** A node holds its full size exactly when it is untouched. */
  lemma WantFull(h: nat, live: set<nat>, i: nat)
    requires WellFormed(h, live) && IsNode(h, i)
    ensures Want(h, live, i) == NodeSize(h, i) <==> i !in live && (Clear(live, i) || Under(live, i))
  {
    if i !in live && !Clear(live, i) && !Under(live, i) {
      var l :| l in live && Anc(i, l);
      if Len(i) == h + 1 {
        LeafAnc(h, i, l);
        assert false;
      } else {
        ChildNodes(h, i);
        WantBound(h, live, 2 * i);
        WantBound(h, live, 2 * i + 1);
      }
    }
  }

  lemma ChildClear(live: set<nat>, i: nat)
    requires i >= 1
    ensures Clear(live, i) <==> i !in live && Clear(live, 2 * i) && Clear(live, 2 * i + 1)
    ensures Under(live, 2 * i) <==> i in live || Under(live, i)
    ensures Under(live, 2 * i + 1) <==> i in live || Under(live, i)
  {
    forall l | l in live
      ensures Anc(i, l) <==> i == l || Anc(2 * i, l) || Anc(2 * i + 1, l)
    {
      AncChild(i, l);
    }
    forall l | l in live
      ensures l != 2 * i && Anc(l, 2 * i) <==> l == i || (l != i && Anc(l, i))
      ensures l != 2 * i + 1 && Anc(l, 2 * i + 1) <==> l == i || (l != i && Anc(l, i))
    {
      assert (2 * i) / 2 == i && (2 * i + 1) / 2 == i;
      if l >= 1 && Anc(l, i) { AncLen(l, i); }
    }
  }

  /** Making x live changes no cell that is neither x nor above x. */
  lemma {:induction false} WantFrame(h: nat, live: set<nat>, x: nat, j: nat)
    requires WellFormed(h, live) && WellFormed(h, live + {x})
    requires x !in live && IsNode(h, j) && !Anc(j, x)
    ensures Want(h, live + {x}, j) == Want(h, live, j)
    decreases h + 1 - Len(j)
  {
    if Anc(x, j) {
      assert x in live + {x};
      assert Under(live + {x}, j);
      WantFull(h, live + {x}, j);
      forall l | l in live
        ensures !Anc(j, l)
      {
        if Anc(j, l) { AncTrans(x, j, l); assert false; }
      }
      assert j !in live;
    } else {
      assert Clear(live + {x}, j) <==> Clear(live, j);
      assert Under(live + {x}, j) <==> Under(live, j) by {
        if Under(live, j) {
          var l :| l in live && l != j && Anc(l, j);
          assert l in live + {x};
        }
      }
      if Len(j) < h + 1 {
        ChildNodes(h, j);
        AncChild(j, x);
        WantFrame(h, live, x, 2 * j);
        WantFrame(h, live, x, 2 * j + 1);
      }
    }
  }

  /* ---- pages ---- */

  predicate IsPage(h: nat, p: nat) { p < Pow2(h) }

  /** Page p belongs to some live block. */
  ghost predicate Covered(h: nat, live: set<nat>, p: nat) {
    exists l :: l in live && Anc(l, Pow2(h) + p)
  }

  lemma LeafOfPage(h: nat, p: nat)
    requires IsPage(h, p)
    ensures IsNode(h, Pow2(h) + p) && Len(Pow2(h) + p) == h + 1
    ensures NodeSize(h, Pow2(h) + p) == 1 && Offset(h, Pow2(h) + p) == p
  {
    LenUnique(Pow2(h) + p, h);
  }

  /** The pages below node i are exactly its interval. */
  lemma {:induction false} PagesOfNode(h: nat, i: nat, p: nat)
    requires IsNode(h, i) && IsPage(h, p)
    ensures Anc(i, Pow2(h) + p) <==> Offset(h, i) <= p < Offset(h, i) + NodeSize(h, i)
    decreases h + 1 - Len(i)
  {
    LeafOfPage(h, p);
    var leaf := Pow2(h) + p;
    if Len(i) == h + 1 {
      assert NodeSize(h, i) == 1;
      if Anc(i, leaf) { LeafAnc(h, i, leaf); }
    } else {
      ChildNodes(h, i);
      AncChild(i, leaf);
      PagesOfNode(h, 2 * i, p);
      PagesOfNode(h, 2 * i + 1, p);
      if i == leaf { assert false; }
    }
  }

  lemma {:induction false} OffsetInside(h: nat, i: nat, j: nat)
    requires IsNode(h, i) && IsNode(h, j) && Anc(i, j)
    ensures Offset(h, i) <= Offset(h, j)
    ensures Offset(h, j) + NodeSize(h, j) <= Offset(h, i) + NodeSize(h, i)
    decreases j
  {
    if i != j {
      ParentNode(h, j);
      ChildNodes(h, j / 2);
      OffsetInside(h, i, j / 2);
    }
  }

  /** No live block meets node i. */
  ghost predicate Untouched(live: set<nat>, i: nat) {
    Clear(live, i) && !Under(live, i)
  }

  lemma UntouchedPages(h: nat, live: set<nat>, i: nat)
    requires WellFormed(h, live) && IsNode(h, i)
    ensures Untouched(live, i) <==>
            forall p: nat | Offset(h, i) <= p < Offset(h, i) + NodeSize(h, i) :: !Covered(h, live, p)
  {
    OffsetBounds(h, i);
    if Untouched(live, i) {
      forall p: nat | Offset(h, i) <= p < Offset(h, i) + NodeSize(h, i)
        ensures !Covered(h, live, p)
      {
        if Covered(h, live, p) {
          var l :| l in live && Anc(l, Pow2(h) + p);
          PagesOfNode(h, i, p);
          AncLinear(l, i, Pow2(h) + p);
        }
      }
    } else {
      var l: nat, deep: nat;
      if Under(live, i) {
        l :| l in live && l != i && Anc(l, i);
        deep := i;
      } else {
        l :| l in live && Anc(i, l);
        deep := l;
      }
      var p: nat := FirstPage(h, deep);
      AncTrans(l, deep, Pow2(h) + p);
      AncTrans(i, deep, Pow2(h) + p);
      PagesOfNode(h, i, p);
      assert Covered(h, live, p);
    }
  }

  lemma FirstPage(h: nat, i: nat) returns (p: nat)
    requires IsNode(h, i)
    ensures IsPage(h, p) && p == Offset(h, i) && Anc(i, Pow2(h) + p)
  {
    OffsetBounds(h, i);
    p := Offset(h, i);
    PagesOfNode(h, i, p);
  }

  ghost predicate IsMultiple(o: int, s: nat) {
    exists k: nat :: o == k * s
  }

  /** A block as the callers see it: aligned, inside the arena, no page live. */
  ghost predicate FreeBlock(h: nat, live: set<nat>, o: int, s: nat) {
    && 0 <= o && o + s <= Pow2(h)
    && IsMultiple(o, s)
    && (forall p: nat | o <= p < o + s :: !Covered(h, live, p))
  }

  lemma BlockNode(h: nat, e: nat, k: nat) returns (i: nat)
    requires k * Pow2(e) + Pow2(e) <= Pow2(h)
    ensures IsNode(h, i) && NodeSize(h, i) == Pow2(e) && Offset(h, i) == k * Pow2(e)
  {
    hide Pow2, Len;
    BlockSmaller(h, e, k);
    var m := Pow2(h - e);
    i := m + k;
    Pow2Pos(h - e + 1);
    LenUnique(i, h - e);
    Distribute(m, k, Pow2(e));
  }

  lemma BlockSmaller(h: nat, e: nat, k: nat)
    requires k * Pow2(e) + Pow2(e) <= Pow2(h)
    ensures e <= h && Pow2(h) == Pow2(h - e) * Pow2(e) && k < Pow2(h - e)
  {
    if e > h { Pow2Increasing(h, e); }
    hide Pow2;
    Pow2Add(h - e, e);
    if k >= Pow2(h - e) { Scale(Pow2(h - e), k, Pow2(e)); }
  }

  lemma FreeBlockIsUntouchedNode(h: nat, live: set<nat>, o: int, e: nat) returns (i: nat)
    requires WellFormed(h, live) && FreeBlock(h, live, o, Pow2(e))
    ensures IsNode(h, i) && NodeSize(h, i) == Pow2(e) && Offset(h, i) == o && Untouched(live, i)
  {
    var k: nat :| o == k * Pow2(e);
    i := BlockNode(h, e, k);
    UntouchedPages(h, live, i);
  }

  lemma UntouchedNodeIsFreeBlock(h: nat, live: set<nat>, i: nat)
    requires WellFormed(h, live) && IsNode(h, i) && Untouched(live, i)
    ensures FreeBlock(h, live, Offset(h, i), NodeSize(h, i))
  {
    OffsetBounds(h, i);
    LenBounds(i);
    var k: nat := i - Pow2(Len(i) - 1);
    assert Offset(h, i) == k * NodeSize(h, i);
    UntouchedPages(h, live, i);
  }

  /* ---- allocation and release, on the live set ---- */

  /** The descending loop: left whenever the left half is large enough. */
  ghost function Descend(h: nat, live: set<nat>, i: nat, s: nat): nat
    requires IsNode(h, i)
    decreases h + 1 - Len(i)
  {
    if NodeSize(h, i) == s || Len(i) == h + 1 then i
    else if Want(h, live, 2 * i) >= s then Descend(h, live, 2 * i, s)
    else Descend(h, live, 2 * i + 1, s)
  }

  ghost function AllocSpec(h: nat, live: set<nat>, n: nat): (r: (set<nat>, int))
    requires n > 0
  {
    var s := RoundUp(n);
    if Want(h, live, 1) < s then (live, -1)
    else
      var i := Descend(h, live, 1, s);
      if IsNode(h, i) then (live + {i}, Offset(h, i)) else (live, -1)
  }

  ghost function Owner(h: nat, live: set<nat>, p: nat): (l: nat)
    requires Covered(h, live, p)
    ensures l in live && Anc(l, Pow2(h) + p)
  {
    var l :| l in live && Anc(l, Pow2(h) + p);
    l
  }

  /** Freeing a page outside every live block changes nothing and answers
      twice the arena size. */
  ghost function FreeSpec(h: nat, live: set<nat>, p: nat): (r: (set<nat>, nat))
    requires WellFormed(h, live)
  {
    if Covered(h, live, p) then
      var l := Owner(h, live, p);
      (live - {l}, NodeSize(h, l))
    else (live, 2 * Pow2(h))
  }

  lemma {:induction false} UntouchedGivesWant(h: nat, live: set<nat>, i: nat, j: nat)
    requires WellFormed(h, live) && IsNode(h, i) && IsNode(h, j)
    requires Anc(i, j) && Untouched(live, j)
    ensures Want(h, live, i) >= NodeSize(h, j)
    decreases h + 1 - Len(i)
  {
    OffsetInside(h, i, j);
    if i in live { assert false; }
    if i != j && !Clear(live, i) && !Under(live, i) {
      AncLen(i, j);
      ChildNodes(h, i);
      AncChild(i, j);
      UntouchedGivesWant(h, live, if Anc(2 * i, j) then 2 * i else 2 * i + 1, j);
    }
  }

  lemma BigEnough(h: nat, i: nat, e: nat)
    requires IsNode(h, i) && Len(i) + e < h + 1
    ensures NodeSize(h, i) > Pow2(e) && NodeSize(h, i) >= 2 * Pow2(e)
  {
    Pow2Increasing(e, h + 1 - Len(i));
    if e < h - Len(i) { Pow2Increasing(e, h - Len(i)); }
    Pow2Pos(h + 1 - Len(i));
  }

  lemma DescendUnfold(h: nat, live: set<nat>, i: nat, e: nat)
    requires IsNode(h, i) && Len(i) + e < h + 1
    ensures IsNode(h, 2 * i) && IsNode(h, 2 * i + 1)
    ensures Descend(h, live, i, Pow2(e))
         == Descend(h, live, if Want(h, live, 2 * i) >= Pow2(e) then 2 * i else 2 * i + 1, Pow2(e))
  {
    BigEnough(h, i, e);
    ChildNodes(h, i);
  }

  /** One step of the descent keeps the needed size below, on the untouched side. */
  lemma DescendStep(h: nat, live: set<nat>, i: nat, e: nat) returns (c: nat)
    requires WellFormed(h, live) && IsNode(h, i) && Len(i) + e < h + 1
    requires Want(h, live, i) >= Pow2(e) && !Under(live, i)
    ensures IsNode(h, 2 * i) && IsNode(h, 2 * i + 1) && Len(c) == Len(i) + 1
    ensures c == if Want(h, live, 2 * i) >= Pow2(e) then 2 * i else 2 * i + 1
    ensures Want(h, live, c) >= Pow2(e) && !Under(live, c)
    ensures Descend(h, live, i, Pow2(e)) == Descend(h, live, c, Pow2(e))
  {
    var s := Pow2(e);
    assert s >= 1;
    assert i !in live;
    ChildNodes(h, i);
    DescendUnfold(h, live, i, e);
    c := if Want(h, live, 2 * i) >= s then 2 * i else 2 * i + 1;
    assert !Under(live, c) by { ChildClear(live, i); }
    assert Want(h, live, c) >= s by {
      BigEnough(h, i, e);
      ChildWants(h, live, i);
    }
  }

  lemma {:induction false} DescendFound(h: nat, live: set<nat>, i: nat, e: nat)
    requires WellFormed(h, live) && IsNode(h, i) && Len(i) + e <= h + 1
    requires Want(h, live, i) >= Pow2(e) && !Under(live, i)
    ensures var r := Descend(h, live, i, Pow2(e));
            IsNode(h, r) && NodeSize(h, r) == Pow2(e) && Anc(i, r) && Untouched(live, r)
    decreases h + 1 - Len(i)
  {
    if Len(i) + e == h + 1 {
      WantBound(h, live, i);
      WantFull(h, live, i);
    } else {
      var c := DescendStep(h, live, i, e);
      DescendFound(h, live, c, e);
      AncChild(i, Descend(h, live, c, Pow2(e)));
    }
  }

  lemma {:induction false} DescendLowest(h: nat, live: set<nat>, i: nat, e: nat, j: nat)
    requires WellFormed(h, live) && IsNode(h, i) && Len(i) + e <= h + 1
    requires Want(h, live, i) >= Pow2(e) && !Under(live, i)
    requires IsNode(h, j) && NodeSize(h, j) == Pow2(e) && Anc(i, j) && Untouched(live, j)
    ensures var r := Descend(h, live, i, Pow2(e));
            IsNode(h, r) && Offset(h, r) <= Offset(h, j)
    decreases h + 1 - Len(i)
  {
    if Len(i) + e == h + 1 {
      OffsetInside(h, i, j);
    } else {
      var c := DescendStep(h, live, i, e);
      DescendFound(h, live, c, e);
      var r := Descend(h, live, c, Pow2(e));
      if Anc(c, j) {
        DescendLowest(h, live, c, e, j);
      } else {
        Pow2Increasing(e, h + 1 - Len(i));
        AncChild(i, j);
        if c == 2 * i {
          RightAfterLeft(h, i, r, j);
        } else {
          UntouchedGivesWant(h, live, 2 * i, j);
        }
      }
    }
  }

  lemma RightAfterLeft(h: nat, i: nat, r: nat, j: nat)
    requires IsNode(h, i) && Len(i) < h + 1 && IsNode(h, r) && IsNode(h, j)
    requires Anc(2 * i, r) && Anc(2 * i + 1, j)
    ensures Offset(h, r) <= Offset(h, j)
  {
    hide Offset, NodeSize, Anc, Len;
    ChildNodes(h, i);
    OffsetInside(h, 2 * i, r);
    OffsetInside(h, 2 * i + 1, j);
  }

  /** A node that is not live and not inside a live block holds the larger of
      its halves, or is whole and so are its halves. */
  lemma ChildWants(h: nat, live: set<nat>, i: nat)
    requires WellFormed(h, live) && IsNode(h, i) && Len(i) < h + 1
    requires i !in live && !Under(live, i)
    ensures IsNode(h, 2 * i) && IsNode(h, 2 * i + 1)
    ensures var (l, r) := (Want(h, live, 2 * i), Want(h, live, 2 * i + 1));
            && (Clear(live, i) ==> 2 * l == NodeSize(h, i) == 2 * r)
            && (!Clear(live, i) ==> Want(h, live, i) == Max(l, r))
            && (Clear(live, i) <==> l + r == NodeSize(h, i))
  {
    ChildNodes(h, i);
    hide Offset, NodeSize, Len, WellFormed, Under;
    ChildClear(live, i);
    WantBound(h, live, 2 * i);
    WantBound(h, live, 2 * i + 1);
    WantFull(h, live, 2 * i);
    WantFull(h, live, 2 * i + 1);
    forall c | c == 2 * i || c == 2 * i + 1
      ensures c in live ==> !Clear(live, c)
    {
      assert Anc(c, c);
    }
  }

  lemma RootFits(h: nat, live: set<nat>, e: nat)
    requires WellFormed(h, live) && IsNode(h, 1) && Want(h, live, 1) >= Pow2(e)
    ensures e <= h && !Under(live, 1)
  {
    assert Len(1) == 1 + Len(0);
    WantBound(h, live, 1);
    if e > h { Pow2Increasing(h, e); }
  }

  lemma TakeUntouched(h: nat, live: set<nat>, r: nat)
    requires WellFormed(h, live) && IsNode(h, r) && Untouched(live, r)
    ensures r !in live && WellFormed(h, live + {r})
  {
    assert Anc(r, r);
  }
}
