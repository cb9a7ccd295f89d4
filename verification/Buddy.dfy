/** `kernel/pmm.c`, the buddy part: the tree array and its three routines. */
module Buddy {
  import opened Bits
  import opened BuddySpec

  const TREE_CELLS: nat := 32768  // KMEMORY / PG_SIZE

  /** Every cell is right except, perhaps, a and its ancestors. */
  ghost predicate CellsExcept(h: nat, live: set<nat>, t: seq<nat>, a: nat) {
    forall j: nat | IsNode(h, j) && !Anc(j, a) :: j < |t| && t[j] == Want(h, live, j)
  }

  ghost predicate Cells(h: nat, live: set<nat>, t: seq<nat>) {
    forall j: nat | IsNode(h, j) :: j < |t| && t[j] == Want(h, live, j)
  }

  lemma TakeCell(h: nat, live: set<nat>, x: nat, t: seq<nat>)
    requires WellFormed(h, live) && WellFormed(h, live + {x})
    requires IsNode(h, x) && x !in live && Cells(h, live, t)
    ensures x < |t| && CellsExcept(h, live + {x}, t[x := 0], x / 2)
  {
    forall j: nat | IsNode(h, j) && !Anc(j, x / 2)
      ensures j < |t| && t[x := 0][j] == Want(h, live + {x}, j)
    {
      if j != x {
        if Anc(j, x) { AncLen(j, x); }
        WantFrame(h, live, x, j);
      }
    }
  }

  /** Above a live block a cell is the larger of its halves. */
  lemma AboveLive(h: nat, live: set<nat>, x: nat, i: nat)
    requires WellFormed(h, live) && x in live && Anc(i, x) && i != x && i >= 1
    ensures IsNode(h, i) && Len(i) < h + 1 && i !in live && !Under(live, i) && !Clear(live, i)
  {
    AncLen(i, x);
    if l :| l in live && Anc(l, i) { AncTrans(l, i, x); }
  }

  lemma ClimbCell(h: nat, live: set<nat>, x: nat, i: nat, t: seq<nat>)
    requires WellFormed(h, live) && x in live && Anc(i, x) && i != x && i >= 1
    requires CellsExcept(h, live, t, i)
    ensures 2 * i + 1 < |t|
    ensures CellsExcept(h, live, t[i := Max(t[2 * i], t[2 * i + 1])], i / 2)
  {
    hide Want, WellFormed, IsNode, Under;
    AboveLive(h, live, x, i);
    ChildNodes(h, i);
    AncBelow(i);
    ChildWants(h, live, i);
    assert t[2 * i] == Want(h, live, 2 * i) && t[2 * i + 1] == Want(h, live, 2 * i + 1);
    SetCell(h, live, i, t, Max(t[2 * i], t[2 * i + 1]));
  }

  lemma AncBelow(i: nat)
    requires i >= 1
    ensures !Anc(2 * i, i) && !Anc(2 * i + 1, i)
  {
  }

  lemma ReleaseCell(h: nat, live: set<nat>, x: nat, t: seq<nat>)
    requires WellFormed(h, live) && x in live && Cells(h, live, t)
    ensures WellFormed(h, live - {x})
    ensures x < |t| && CellsExcept(h, live - {x}, t[x := NodeSize(h, x)], x / 2)
  {
    var rest := live - {x};
    assert rest + {x} == live;
    forall j: nat | IsNode(h, j) && !Anc(j, x / 2)
      ensures j < |t| && t[x := NodeSize(h, x)][j] == Want(h, rest, j)
    {
      if j == x {
        assert Clear(rest, x);
      } else {
        if Anc(j, x) { AncLen(j, x); }
        WantFrame(h, rest, x, j);
      }
    }
  }

  /** The climbing loop of `buddy_free` merges two whole halves. */
  function Merged(l: nat, r: nat, nodeSize: nat): nat {
    if l + r == nodeSize then nodeSize else Max(l, r)
  }

  lemma MergeCell(h: nat, live: set<nat>, x: nat, i: nat, t: seq<nat>)
    requires WellFormed(h, live) && WellFormed(h, live - {x})
    requires x in live && Anc(i, x) && i != x && i >= 1
    requires CellsExcept(h, live - {x}, t, i)
    ensures IsNode(h, i) && 2 * i + 1 < |t|
    ensures CellsExcept(h, live - {x}, t[i := Merged(t[2 * i], t[2 * i + 1], NodeSize(h, i))], i / 2)
  {
    hide Want, NodeSize, Len;
    var rest := live - {x};
    AboveLive(h, live, x, i);
    assert i !in rest && !Under(rest, i);
    MergedIsWant(h, rest, i);
    AncBelow(i);
    assert t[2 * i] == Want(h, rest, 2 * i) && t[2 * i + 1] == Want(h, rest, 2 * i + 1);
    SetCell(h, rest, i, t, Merged(t[2 * i], t[2 * i + 1], NodeSize(h, i)));
  }

  /** Writing the right value at i leaves only i's ancestors in doubt. */
  lemma SetCell(h: nat, live: set<nat>, i: nat, t: seq<nat>, v: nat)
    requires IsNode(h, i) && i < |t| && v == Want(h, live, i)
    requires CellsExcept(h, live, t, i)
    ensures CellsExcept(h, live, t[i := v], i / 2)
  {
  }

  lemma MergedIsWant(h: nat, live: set<nat>, i: nat)
    requires WellFormed(h, live) && IsNode(h, i) && Len(i) < h + 1
    requires i !in live && !Under(live, i)
    ensures IsNode(h, 2 * i) && IsNode(h, 2 * i + 1)
    ensures Want(h, live, i)
         == Merged(Want(h, live, 2 * i), Want(h, live, 2 * i + 1), NodeSize(h, i))
  {
    ChildWants(h, live, i);
  }

  /** On the way up from a leaf: no live node and no zero cell passed so far. */
  ghost predicate OnlyAbove(h: nat, live: set<nat>, leaf: nat, i: nat) {
    && Anc(i, leaf)
    && (forall l | l in live && Anc(l, leaf) :: Anc(l, i))
    && (Len(i) == h + 1 || exists c: nat :: c / 2 == i && IsNode(h, c) && Want(h, live, c) != 0)
  }

  lemma OneUp(h: nat, live: set<nat>, leaf: nat, i: nat)
    requires IsNode(h, i) && Want(h, live, i) != 0 && OnlyAbove(h, live, leaf, i)
    ensures i > 1 ==> IsNode(h, i / 2) && NodeSize(h, i / 2) == 2 * NodeSize(h, i)
    ensures i > 1 ==> OnlyAbove(h, live, leaf, i / 2)
    ensures i == 1 ==> NodeSize(h, i) == Pow2(h) && forall l | l in live :: !Anc(l, leaf)
  {
    if i > 1 {
      ParentNode(h, i);
      AncTrans(i / 2, i, leaf);
    } else {
      RootNode(h);
    }
  }

  /** The first zero cell on the way up is a live block. */
  lemma ZeroIsLive(h: nat, live: set<nat>, leaf: nat, i: nat)
    requires WellFormed(h, live) && IsNode(h, i) && Want(h, live, i) == 0
    requires OnlyAbove(h, live, leaf, i)
    ensures i in live
  {
    if i !in live && Len(i) < h + 1 { ZeroBelow(h, live, i); }
  }

  lemma ZeroBelow(h: nat, live: set<nat>, i: nat)
    requires IsNode(h, i) && Want(h, live, i) == 0 && i !in live && Len(i) < h + 1
    ensures forall c: nat | c / 2 == i && IsNode(h, c) :: Want(h, live, c) == 0
  {
    ChildNodes(h, i);
  }

  /** `IS_POW2` in `buddy_init` notices exactly the first node of each level. */
  lemma LevelStart(i: nat, pow2: bool)
    requires i > 1 && pow2 == IsPow2(i)
    ensures Len(i) == Len(i - 1) + (if pow2 then 1 else 0)
  {
    assert pow2 <==> i == Pow2(Len(i) - 1) by { IsPow2Iff(i); }
    if pow2 { Pow2Below(i, Len(i) - 1); } else { NotPow2Below(i); }
  }

  lemma LevelSize(h: nat, i: nat, prev: nat)
    requires IsNode(h, i)
    requires i == 1 ==> prev == 2 * Pow2(h)
    requires i > 1 ==> IsNode(h, i - 1) && prev == NodeSize(h, i - 1)
    ensures NodeSize(h, i) == if IsPow2(i) then prev / 2 else prev
  {
    assert Len(1) == 1 + Len(0);
    if i == 1 {
      assert And(1, 0) == 2 * And(0, 0);
    } else {
      var pow2 := IsPow2(i);
      LevelStart(i, pow2);
      if pow2 { Pow2Pos(h + 1 - Len(i - 1)); }
    }
  }

  lemma ArenaFits(top: nat)
    requires 1 <= top < TREE_CELLS
    ensures Len(top) >= 1 && Pow2(Len(top)) == 2 * Pow2(Len(top) - 1) <= TREE_CELLS
    ensures Pow2(Len(top) - 1) <= top < Pow2(Len(top))
  {
    LenBounds(top);
    Pow2Pos(Len(top));
    assert Pow2(15) == TREE_CELLS;
    LenLe(top, 15);
    if Len(top) < 15 { Pow2Increasing(Len(top), 15); }
  }

  class BuddyAllocator {
    const tree: array<nat>  // cells hold uint32 page counts
    var size: nat           // buddy_size
    ghost var h: nat
    ghost var live: set<nat>

    ghost predicate Valid()
      reads this, tree
    {
      && size == Pow2(h)
      && 2 * size <= tree.Length
      && WellFormed(h, live)
      && Cells(h, live, tree[..])
    }

    /** `buddy_init`: top is the page index of the last byte of the arena. */
    constructor (top: nat)
      requires 1 <= top < TREE_CELLS
      ensures Valid() && fresh(tree) && live == {}
      ensures size <= top < 2 * size
    {
      var pmemSize := FixSize(top);
      ArenaFits(top);
      tree := new nat[TREE_CELLS];
      size := pmemSize / 2;
      h := Len(top) - 1;
      live := {};
      new;
      var nodeSize := size * 2;
      var i: nat := 1;
      while i < 2 * size
        invariant 1 <= i <= 2 * size <= tree.Length
        invariant h == Len(top) - 1 && size == Pow2(h) && live == {} && fresh(tree)
        invariant i == 1 ==> nodeSize == 2 * size
        invariant i > 1 ==> IsNode(h, i - 1) && nodeSize == NodeSize(h, i - 1)
        invariant forall j: nat | IsNode(h, j) && j < i :: tree[j] == NodeSize(h, j)
      {
        NodeRange(h, i);
        LevelSize(h, i, nodeSize);
        if IsPow2(i) {
          nodeSize := nodeSize / 2;
        }
        tree[i] := nodeSize;
        i := i + 1;
      }
      forall j: nat | IsNode(h, j)
        ensures j < |tree[..]| && tree[..][j] == Want(h, live, j)
      {
        NodeRange(h, j);
        assert Clear(live, j);
      }
    }

    /** `buddy_alloc`; -1 when nothing fits. */
    method Alloc(n: nat) returns (offset: int)
      requires Valid() && 0 < n < 0x8000_0000
      modifies tree, this`live
      ensures Valid()
      ensures (live, offset) == AllocSpec(h, old(live), n)
    {
      hide Want, IsPow2, Len, Untouched, NodeSize, CellsExcept, WellFormed;
      var s := n;
      var pow2 := IsPow2(n);
      RoundUpByCases(n, pow2);
      if !pow2 {
        s := FixSize(n);
      }
      RootNode(h);
      if tree[..][1] < s {
        return -1;
      }
      var index, nodeSize := FindFit(s, Len(n - 1));
      offset := index * nodeSize - size;
      assert index !in live && WellFormed(h, live + {index}) by { TakeUntouched(h, live, index); }
      ghost var t := tree[..];
      TakeCell(h, live, index, t);
      tree[index] := 0;
      live := live + {index};
      assert tree[..] == t[index := 0];
      if index > 1 { AncTrans(index / 2, index / 2, index); }
      ClimbMax(index / 2, index);
    }

    /** The descending loop of `buddy_alloc`. */
    method FindFit(s: nat, ghost e: nat) returns (index: nat, nodeSize: nat)
      requires Valid() && s == Pow2(e) && IsNode(h, 1) && Want(h, live, 1) >= s
      ensures index == Descend(h, live, 1, s)
      ensures IsNode(h, index) && nodeSize == s == NodeSize(h, index) && Untouched(live, index)
    {
      hide Want, Offset, NodeSize, Untouched, WellFormed;
      RootNode(h);
      RootFits(h, live, e);
      index := 1;
      nodeSize := size;
      while nodeSize != s
        invariant IsNode(h, index) && nodeSize == NodeSize(h, index) && Len(index) + e <= h + 1
        invariant Want(h, live, index) >= s && !Under(live, index)
        invariant Descend(h, live, index, s) == Descend(h, live, 1, s)
        decreases nodeSize
      {
        LevelOfSize(h, index, e);
        ghost var c := DescendStep(h, live, index, e);
        ChildNodes(h, index);
        if tree[..][2 * index] >= s {
          index := 2 * index;
        } else {
          index := 2 * index + 1;
        }
        nodeSize := nodeSize / 2;
      }
      DescendFound(h, live, index, e);
    }

    /** The climbing loop of `buddy_alloc`, above the node x just taken. */
    method ClimbMax(start: nat, ghost x: nat)
      requires size == Pow2(h) && 2 * size <= tree.Length && WellFormed(h, live) && x in live
      requires start > 0 ==> Anc(start, x) && start != x
      requires CellsExcept(h, live, tree[..], start)
      modifies tree
      ensures Valid()
    {
      var index: nat := start;
      while index > 0
        invariant index > 0 ==> Anc(index, x) && index != x
        invariant CellsExcept(h, live, tree[..], index)
      {
        ghost var t := tree[..];
        ClimbCell(h, live, x, index, t);
        tree[index] := Max(tree[2 * index], tree[2 * index + 1]);
        assert tree[..] == t[index := Max(t[2 * index], t[2 * index + 1])];
        AncStep(index, x);
        index := index / 2;
      }
    }

    /** `buddy_free`: releases the block that contains the page. */
    method Free(offset: nat) returns (freed: nat)
      requires Valid() && offset < size
      modifies tree, this`live
      ensures Valid()
      ensures (live, freed) == FreeSpec(h, old(live), offset)
    {
      hide Want, Offset, NodeSize, CellsExcept;
      var index, nodeSize := FindLive(offset);
      if index == 0 {
        return nodeSize;
      }
      assert Owner(h, live, offset) == index by { OneOwner(h, live, index, offset); }
      ghost var t, live0 := tree[..], live;
      ReleaseCell(h, live, index, t);
      tree[index] := nodeSize;
      freed := nodeSize;
      live := live - {index};
      assert tree[..] == t[index := NodeSize(h, index)];
      ClimbMerge(index, nodeSize, live0);
    }

    /** The first loop of `buddy_free`: up from the leaf to the first zero cell;
        index 0 stands for the return from inside the loop. */
    method FindLive(offset: nat) returns (index: nat, nodeSize: nat)
      requires Valid() && offset < size
      ensures index == 0 ==> !Covered(h, live, offset) && nodeSize == 2 * size
      ensures index != 0 ==> index in live && Anc(index, Pow2(h) + offset) && nodeSize == NodeSize(h, index)
    {
      hide Want, Offset, NodeSize, WellFormed;
      nodeSize := 1;
      index := offset + size;
      ghost var leaf := index;
      LeafOfPage(h, offset);
      while tree[..][index] != 0
        invariant IsNode(h, index) && nodeSize == NodeSize(h, index)
        invariant OnlyAbove(h, live, leaf, index)
        decreases index
      {
        OneUp(h, live, leaf, index);
        nodeSize := nodeSize * 2;
        if index == 1 {
          return 0, nodeSize;
        }
        index := index / 2;
      }
      ZeroIsLive(h, live, leaf, index);
    }

    /** The climbing loop of `buddy_free`, above the node x just released. */
    method ClimbMerge(x: nat, start: nat, ghost live0: set<nat>)
      requires size == Pow2(h) && 2 * size <= tree.Length && WellFormed(h, live) && WellFormed(h, live0)
      requires x in live0 && live == live0 - {x} && start == NodeSize(h, x)
      requires CellsExcept(h, live, tree[..], x / 2)
      modifies tree
      ensures Valid()
    {
      var index, nodeSize := x, start;
      while index > 1
        invariant index >= 1 && Anc(index, x) && IsNode(h, index) && nodeSize == NodeSize(h, index)
        invariant CellsExcept(h, live, tree[..], index / 2)
      {
        ParentNode(h, index);
        AncStep(index, x);
        index := index / 2;
        nodeSize := nodeSize * 2;
        ghost var t := tree[..];
        MergeCell(h, live0, x, index, t);
        var l, r := tree[2 * index], tree[2 * index + 1];
        if l + r == nodeSize {
          tree[index] := nodeSize;
        } else {
          tree[index] := Max(l, r);
        }
        assert tree[..] == t[index := Merged(t[2 * index], t[2 * index + 1], nodeSize)];
      }
    }
  }

  lemma RootNode(h: nat)
    ensures IsNode(h, 1) && NodeSize(h, 1) == Pow2(h) && Len(1) == 1
  {
    assert Len(1) == 1 + Len(0);
  }

  lemma LevelOfSize(h: nat, i: nat, e: nat)
    requires IsNode(h, i) && Len(i) + e <= h + 1 && NodeSize(h, i) != Pow2(e)
    ensures Len(i) + e < h + 1
  {
  }

  lemma AncStep(i: nat, x: nat)
    requires i >= 1 && Anc(i, x)
    ensures i > 1 ==> Anc(i / 2, x) && i / 2 != x
  {
    AncLen(i, x);
    if i > 1 { AncTrans(i / 2, i, x); }
  }

  lemma OneOwner(h: nat, live: set<nat>, x: nat, p: nat)
    requires WellFormed(h, live) && x in live && Anc(x, Pow2(h) + p)
    ensures Covered(h, live, p) && Owner(h, live, p) == x
  {
    AncLinear(x, Owner(h, live, p), Pow2(h) + p);
  }
}
