/** Laws of page allocation over whole runs, stated for callers: page offsets,
    block sizes and overlaps. */
module BuddyLaws {
  import opened Bits
  import opened BuddySpec

  /** Live blocks are inside the arena, aligned to their power-of-two size, and
      no two share a page. */
  ghost predicate BlocksLaidOut(h: nat, live: set<nat>) {
    && (forall l | l in live ::
          && IsNode(h, l)
          && 0 <= Offset(h, l) && Offset(h, l) + NodeSize(h, l) <= Pow2(h)
          && (exists e: nat :: NodeSize(h, l) == Pow2(e) && IsMultiple(Offset(h, l), Pow2(e))))
    && (forall a, b | a in live && b in live && a != b ::
          || Offset(h, a) + NodeSize(h, a) <= Offset(h, b)
          || Offset(h, b) + NodeSize(h, b) <= Offset(h, a))
  }

  lemma WellFormedIsLaidOut(h: nat, live: set<nat>)
    requires WellFormed(h, live)
    ensures BlocksLaidOut(h, live)
  {
    forall l | l in live
      ensures 0 <= Offset(h, l) && Offset(h, l) + NodeSize(h, l) <= Pow2(h)
      ensures exists e: nat :: NodeSize(h, l) == Pow2(e) && IsMultiple(Offset(h, l), Pow2(e))
    {
      OffsetBounds(h, l);
      LenBounds(l);
      var e: nat := h + 1 - Len(l);
      var k: nat := l - Pow2(Len(l) - 1);
      assert Offset(h, l) == k * NodeSize(h, l);
      assert NodeSize(h, l) == Pow2(e) && IsMultiple(Offset(h, l), Pow2(e));
    }
    forall a, b | a in live && b in live && a != b
      ensures || Offset(h, a) + NodeSize(h, a) <= Offset(h, b)
              || Offset(h, b) + NodeSize(h, b) <= Offset(h, a)
    {
      Apart(h, live, a, b);
    }
  }

  lemma Apart(h: nat, live: set<nat>, a: nat, b: nat)
    requires WellFormed(h, live) && a in live && b in live && a != b
    ensures || Offset(h, a) + NodeSize(h, a) <= Offset(h, b)
            || Offset(h, b) + NodeSize(h, b) <= Offset(h, a)
  {
    var p := FirstPage(h, a);
    var q := FirstPage(h, b);
    PagesOfNode(h, b, p);
    PagesOfNode(h, a, q);
    if Anc(b, Pow2(h) + p) { AncLinear(a, b, Pow2(h) + p); }
    if Anc(a, Pow2(h) + q) { AncLinear(a, b, Pow2(h) + q); }
  }

  /** `buddy_alloc` fails exactly when no aligned free block of the rounded size
      exists, and otherwise takes the lowest one. */
  lemma AllocLowestFit(h: nat, live: set<nat>, n: nat)
    requires WellFormed(h, live) && n > 0
    ensures var (live', o) := AllocSpec(h, live, n);
            var s := RoundUp(n);
            && WellFormed(h, live')
            && (o == -1 <==> forall q :: !FreeBlock(h, live, q, s))
            && (o == -1 ==> live' == live)
            && (o != -1 ==>
                  && FreeBlock(h, live, o, s)
                  && (forall q | FreeBlock(h, live, q, s) :: o <= q)
                  && (exists i :: i !in live && live' == live + {i} && IsNode(h, i)
                               && Offset(h, i) == o && NodeSize(h, i) == s))
  {
    var e := Len(n - 1);
    var s := RoundUp(n);
    assert Len(1) == 1 + Len(0);
    if Want(h, live, 1) < s {
      forall q
        ensures !FreeBlock(h, live, q, s)
      {
        if FreeBlock(h, live, q, s) {
          var i := FreeBlockIsUntouchedNode(h, live, q, e);
          RootAnc(i);
          UntouchedGivesWant(h, live, 1, i);
        }
      }
    } else {
      RootFits(h, live, e);
      DescendFound(h, live, 1, e);
      var r := Descend(h, live, 1, s);
      UntouchedNodeIsFreeBlock(h, live, r);
      OffsetBounds(h, r);
      TakeUntouched(h, live, r);
      forall q | FreeBlock(h, live, q, s)
        ensures Offset(h, r) <= q
      {
        var i := FreeBlockIsUntouchedNode(h, live, q, e);
        RootAnc(i);
        DescendLowest(h, live, 1, e, i);
      }
    }
  }

  /** Which page of the block is named does not matter. */
  lemma OwnerIsTheBlock(h: nat, live: set<nat>, l: nat, p: nat)
    requires WellFormed(h, live) && l in live
    requires Offset(h, l) <= p < Offset(h, l) + NodeSize(h, l)
    ensures Covered(h, live, p) && Owner(h, live, p) == l
  {
    OffsetBounds(h, l);
    PagesOfNode(h, l, p);
    AncLinear(l, Owner(h, live, p), Pow2(h) + p);
  }

  /** Freeing any page of a fresh block answers its rounded size and restores
      the live set, hence every cell of the tree. */
  lemma FreeUndoesAlloc(h: nat, live: set<nat>, n: nat, p: nat)
    requires WellFormed(h, live) && n > 0
    requires AllocSpec(h, live, n).1 != -1
    requires AllocSpec(h, live, n).1 <= p < AllocSpec(h, live, n).1 + RoundUp(n)
    ensures WellFormed(h, AllocSpec(h, live, n).0)
    ensures FreeSpec(h, AllocSpec(h, live, n).0, p) == (live, RoundUp(n))
  {
    AllocLowestFit(h, live, n);
    var (live', o) := AllocSpec(h, live, n);
    var i :| i !in live && live' == live + {i} && IsNode(h, i)
             && Offset(h, i) == o && NodeSize(h, i) == RoundUp(n);
    OwnerIsTheBlock(h, live', i, p);
    assert live' - {i} == live;
  }

  /** The answer of `buddy_free` tells a live page from any other. */
  lemma FreeAnswer(h: nat, live: set<nat>, p: nat)
    requires WellFormed(h, live) && IsPage(h, p)
    ensures FreeSpec(h, live, p).1 == 2 * Pow2(h) <==> !Covered(h, live, p)
    ensures WellFormed(h, FreeSpec(h, live, p).0)
    ensures !Covered(h, FreeSpec(h, live, p).0, p)
    ensures forall q: nat | IsPage(h, q) && Covered(h, live, q) && !Covered(h, FreeSpec(h, live, p).0, q)
              :: Covered(h, live, p) && Owner(h, live, q) == Owner(h, live, p)
  {
    if Covered(h, live, p) {
      var l := Owner(h, live, p);
      OffsetBounds(h, l);
      forall q: nat | IsPage(h, q) && Covered(h, live, q) && !Covered(h, live - {l}, q)
        ensures Owner(h, live, q) == l
      {
        var m := Owner(h, live, q);
        assert m == l || m in live - {l};
      }
      if Covered(h, live - {l}, p) {
        var m := Owner(h, live - {l}, p);
        AncLinear(l, m, Pow2(h) + p);
      }
    }
  }

  /* ---- runs ---- */

  datatype Op = Alloc(n: nat) | Free(page: nat)

  ghost function Apply(h: nat, live: set<nat>, op: Op): (r: set<nat>)
    requires WellFormed(h, live)
    ensures WellFormed(h, r)
  {
    match op
    case Alloc(n) =>
      if n == 0 then live
      else
        AllocLowestFit(h, live, n);
        AllocSpec(h, live, n).0
    case Free(p) => FreeSpec(h, live, p).0
  }

  ghost function Run(h: nat, ops: seq<Op>): (r: set<nat>)
    ensures WellFormed(h, r)
  {
    if ops == [] then {} else Apply(h, Run(h, ops[..|ops| - 1]), ops[|ops| - 1])
  }

  /** After any sequence of allocations and releases the blocks are laid out,
      every cell is determined by them, and a cell holds a node's full size
      exactly when no live block meets the node's pages or one strictly
      contains them. */
  lemma RunsAreSafe(h: nat, ops: seq<Op>)
    ensures BlocksLaidOut(h, Run(h, ops))
    ensures forall i | IsNode(h, i) ::
              Want(h, Run(h, ops), i) == NodeSize(h, i)
              <==> Under(Run(h, ops), i)
                   || forall p: nat | Offset(h, i) <= p < Offset(h, i) + NodeSize(h, i)
                        :: !Covered(h, Run(h, ops), p)
  {
    var live := Run(h, ops);
    WellFormedIsLaidOut(h, live);
    forall i | IsNode(h, i)
      ensures Want(h, live, i) == NodeSize(h, i)
              <==> Under(live, i)
                   || forall p: nat | Offset(h, i) <= p < Offset(h, i) + NodeSize(h, i) :: !Covered(h, live, p)
    {
      WantFull(h, live, i);
      UntouchedPages(h, live, i);
      assert Anc(i, i);
    }
  }

  ghost function FreeRun(h: nat, live: set<nat>, pages: seq<nat>): set<nat>
    requires WellFormed(h, live)
  {
    if pages == [] then live
    else FreeRun(h, FreeSpec(h, live, pages[0]).0, pages[1..])
  }

  /** pages[k] lies in the block blocks[k]. */
  ghost predicate PageOfEach(h: nat, live: set<nat>, blocks: seq<nat>, pages: seq<nat>)
    requires WellFormed(h, live)
  {
    && |blocks| == |pages|
    && (forall k | 0 <= k < |blocks| :: blocks[k] in live
          && Offset(h, blocks[k]) <= pages[k] < Offset(h, blocks[k]) + NodeSize(h, blocks[k]))
  }

  /** Releasing every live block once, in any order and through any of its
      pages, brings the tree back to what `buddy_init` wrote. */
  lemma {:induction false} DrainRestoresInit(h: nat, live: set<nat>, blocks: seq<nat>, pages: seq<nat>)
    requires WellFormed(h, live) && PageOfEach(h, live, blocks, pages)
    requires forall l | l in live :: l in blocks
    requires forall a, b | 0 <= a < b < |blocks| :: blocks[a] != blocks[b]
    ensures FreeRun(h, live, pages) == {}
    ensures forall i | IsNode(h, i) :: Want(h, FreeRun(h, live, pages), i) == NodeSize(h, i)
    decreases |pages|
  {
    if pages != [] {
      var l := blocks[0];
      OwnerIsTheBlock(h, live, l, pages[0]);
      var rest := live - {l};
      forall m | m in rest
        ensures m in blocks[1..]
      {
        var k :| 0 <= k < |blocks| && blocks[k] == m;
        assert blocks[1..][k - 1] == m;
      }
      DrainRestoresInit(h, rest, blocks[1..], pages[1..]);
    } else {
      assert live == {} by { if l :| l in live { assert false; } }
    }
  }
}
