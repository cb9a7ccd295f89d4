/** The driver routines of `kernel/virtio_disk.c` over their arrays, proved
    against the protocol steps. Device register accesses are left out. */
module VirtioDisk {
  import opened VirtioRing
  import opened VirtioLaws

  /** Free descriptors are zeroed. */
  predicate Blank(r: Ring) {
    Sized(r) && forall d: nat | d < NUM && r.free[d] :: r.desc[d] == NO_DESC
  }

  /** Everything the interrupt handler finds, in order, after the buffers acc. */
  ghost function TakeFrom(r: Ring, acc: seq<nat>): (out: (Ring, seq<nat>))
    requires Inv(r)
    ensures Inv(out.0) && out.0.seen == out.0.usedIdx
    decreases r.u - r.t
  {
    TakeInv(r);
    if r.seen == r.usedIdx then (r, acc)
    else TakeFrom(Take(r), acc + [r.chains[r.usedRing[r.seen % NUM]].buf])
  }

  class Disk {
    const free: array<bool>
    const desc: array<Desc>
    const ops: array<BlkReq>
    const info: array<Owner>
    const avail: array<nat>
    const used: array<nat>
    var availIdx: nat
    var usedIdx: nat
    var seen: nat
    var busy: set<nat>       // buffers with b->disk == 1
    ghost var book: Ring     // the protocol state; its memory part is in the arrays

    ghost predicate Shaped()
      reads this, free, desc, ops, info, avail, used
    {
      && avail != used
      && free.Length == desc.Length == ops.Length == info.Length == avail.Length == used.Length == NUM
      && book.free == free[..] && book.desc == desc[..] && book.ops == ops[..] && book.info == info[..]
      && book.availRing == avail[..] && book.usedRing == used[..]
      && book.availIdx == availIdx && book.usedIdx == usedIdx && book.seen == seen
    }

    ghost predicate Valid()
      reads this, free, desc, ops, info, avail, used
    {
      Shaped() && Inv(book) && Blank(book)
    }

    /** The end of `virtio_disk_init`. */
    constructor ()
      ensures Valid() && book == Init() && busy == {}
      ensures fresh(free) && fresh(desc) && fresh(ops) && fresh(info) && fresh(avail) && fresh(used)
    {
      free := new bool[NUM](_ => true);
      desc := new Desc[NUM](_ => NO_DESC);
      ops := new BlkReq[NUM](_ => BlkReq(false, 0));
      info := new Owner[NUM](_ => Nobody);
      avail := new nat[NUM](_ => 0);
      used := new nat[NUM](_ => 0);
      availIdx, usedIdx, seen, busy := 0, 0, 0, {};
      book := Init();
      new;
      InitInv();
      assert free[..] == Init().free && desc[..] == Init().desc && ops[..] == Init().ops;
      assert info[..] == Init().info && avail[..] == Init().availRing && used[..] == Init().usedRing;
    }

    /** `alloc_desc`: takes the lowest free descriptor, -1 when there is none. */
    method AllocDesc() returns (i: int)
      requires free.Length == NUM
      modifies free
      ensures free[..] == Claim(old(free[..]))
      ensures i == if FirstFree(old(free[..])) < NUM then FirstFree(old(free[..])) else -1
    {
      var k := 0;
      while k < NUM
        invariant 0 <= k <= NUM && free[..] == old(free[..])
        invariant forall j | 0 <= j < k :: !free[j]
      {
        if free[k] {
          FirstFreeIs(free[..], k);
          ghost var was := free[..];
          free[k] := false;
          assert free[..] == was[k := false];
          return k;
        }
        k := k + 1;
      }
      FirstFreeIs(free[..], NUM);
      return -1;
    }

    /** `free_desc`; freeing a free descriptor is a panic. */
    method FreeDesc(i: nat)
      requires free.Length == desc.Length == NUM && i < NUM && !free[i]
      modifies free, desc
      ensures free[..] == old(free[..])[i := true] && desc[..] == old(desc[..])[i := NO_DESC]
    {
      desc[i] := NO_DESC;
      free[i] := true;
    }

    /** `free_chain`: follows the next flags from the head. */
    method FreeChain(head: nat, ghost ch: Chain)
      requires free.Length == desc.Length == NUM
      requires head < NUM && ch.mid < NUM && ch.last < NUM && head != ch.mid && head != ch.last && ch.mid != ch.last
      requires !free[head] && !free[ch.mid] && !free[ch.last]
      requires desc[head].next_flag && desc[head].next == ch.mid
      requires desc[ch.mid].next_flag && desc[ch.mid].next == ch.last && !desc[ch.last].next_flag
      modifies free, desc
      ensures free[..] == old(free[..])[head := true][ch.mid := true][ch.last := true]
      ensures desc[..] == old(desc[..])[head := NO_DESC][ch.mid := NO_DESC][ch.last := NO_DESC]
    {
      ghost var f0, d0 := free[..], desc[..];
      ghost var path := [head, ch.mid, ch.last];
      ghost var k := 0;
      var i, more := head, true;
      while more
        invariant 0 <= k <= 3 && (more <==> k < 3) && (more ==> i == path[k])
        invariant free[..] == (if k == 0 then f0 else if k == 1 then f0[head := true]
                               else if k == 2 then f0[head := true][ch.mid := true]
                               else f0[head := true][ch.mid := true][ch.last := true])
        invariant desc[..] == (if k == 0 then d0 else if k == 1 then d0[head := NO_DESC]
                               else if k == 2 then d0[head := NO_DESC][ch.mid := NO_DESC]
                               else d0[head := NO_DESC][ch.mid := NO_DESC][ch.last := NO_DESC])
        decreases 3 - k
      {
        assert free[..][i] == false && desc[..][i] == d0[i];
        var flag, nxt := desc[i].next_flag, desc[i].next;
        FreeDesc(i);
        k := k + 1;
        if flag {
          i := nxt;
        } else {
          more := false;
        }
      }
    }

    /** `alloc3_desc`: three descriptors, or none and nothing changed. */
    method Alloc3() returns (ok: bool, a: nat, b: nat, c: nat)
      requires free.Length == desc.Length == NUM
      requires forall d: nat | d < NUM && free[d] :: desc[d] == NO_DESC
      modifies free, desc
      ensures ok <==> CountFree(old(free[..])) >= 3
      ensures ok ==> (a, b, c) == Three(old(free[..])) && a < NUM && b < NUM && c < NUM
                     && free[..] == old(free[..])[a := false][b := false][c := false]
      ensures !ok ==> free[..] == old(free[..])
      ensures desc[..] == old(desc[..])
    {
      ThreeFree(free[..]);
      ghost var f0 := free[..];
      a, b, c := 0, 0, 0;
      var i := AllocDesc();
      if i < 0 {
        return false, 0, 0, 0;
      }
      var j := AllocDesc();
      if j < 0 {
        FreeDesc(i);
        assert free[..] == f0;
        return false, 0, 0, 0;
      }
      var k := AllocDesc();
      if k < 0 {
        FreeDesc(i);
        FreeDesc(j);
        assert free[..] == f0;
        return false, 0, 0, 0;
      }
      return true, i, j, k;
    }

    /** `virtio_disk_rw` from taking disk.lock to the write of the avail slot.
        The allocation loop spins unless three descriptors are free. */
    method PostRequest(b: nat, write: bool, sector: nat) returns (head: nat)
      requires Valid() && NoPosted(book) && CanPost(book)
      modifies this`book, this`busy, free, desc, ops, info, avail
      ensures Valid() && head == Three(old(book.free)).0
      ensures book == Post(old(book), b, BlkReq(write, sector)) && busy == old(busy) + {b}
    {
      hide Inv, CanPost, Three, NoPosted;
      ghost var r0, req := book, BlkReq(write, sector);
      var ok, i0, i1, i2 := Alloc3();
      ghost var a, m, l := PostIsPostAt(r0, b, req);
      Fill(i0, i1, i2, b, BlkReq(write, sector));
      book := PostAt(r0, a, m, l, b, req);
      busy := busy + {b};
      head := i0;
      PostInv(r0, b, req);
      PostBlank(r0, a, m, l, b, req);
    }

    /** avail->idx += 1, before disk.lock is released. */
    method PublishRequest(head: nat)
      requires Valid() && head in book.chains && book.chains[head].phase == Posted
      modifies this`book, this`availIdx
      ensures Valid() && book == Publish(old(book), head)
    {
      PublishInv(book, head);
      availIdx := (availIdx + 1) % IDX;
      book := Publish(book, head);
    }

    /** The request written into the descriptors, the record and the avail slot. */
    method Fill(i0: nat, i1: nat, i2: nat, b: nat, req: BlkReq)
      requires ops.Length == desc.Length == info.Length == avail.Length == NUM
      requires i0 < NUM && i1 < NUM && i2 < NUM && avail != used
      modifies ops, desc, info, avail
      ensures ops[..] == old(ops[..])[i0 := req]
      ensures desc[..] == old(desc[..])[i0 := Desc(OpAt(i0), 16, true, false, i1)]
                                       [i1 := Desc(DataOf(b), 512, true, !req.write, i2)]
                                       [i2 := Desc(StatusAt(i0), 1, false, true, 0)]
      ensures info[..] == old(info[..])[i0 := Buffer(b)]
      ensures avail[..] == old(avail[..])[availIdx % NUM := i0]
    {
      ops[i0] := req;
      desc[i0] := Desc(OpAt(i0), 16, true, false, i1);
      desc[i1] := Desc(DataOf(b), 512, true, !req.write, i2);
      desc[i2] := Desc(StatusAt(i0), 1, false, true, 0);
      info[i0] := Buffer(b);
      avail[availIdx % NUM] := i0;
    }

    /** The loop of `virtio_disk_intr`: every reported completion is taken, its
        buffer released and its waiters woken (woken lists the buffers). */
    method Intr() returns (woken: seq<nat>)
      requires Valid()
      modifies this
      ensures Valid() && (book, woken) == TakeFrom(old(book), [])
      ensures busy == old(busy) - (set b | b in woken)
    {
      woken := [];
      ghost var goal := TakeFrom(book, []);
      while seen != usedIdx
        invariant Valid()
        invariant TakeFrom(book, woken) == goal
        invariant busy == old(busy) - (set b | b in woken)
        decreases book.u - book.t
      {
        TakeRound(book, woken);
        var b := TakeOne();
        woken := woken + [b];
      }
    }

    /** One round of that loop. */
    method TakeOne() returns (b: nat)
      requires Valid() && seen != usedIdx
      modifies this`book, this`seen, this`busy
      ensures Valid() && book == Take(old(book)) && busy == old(busy) - {b}
      ensures var h := old(book).usedRing[old(seen) % NUM];
              h in old(book).chains && b == old(book).chains[h].buf
    {
      TakeInv(book);
      var id := used[seen % NUM];
      b := info[id].buf;
      busy := busy - {b};
      seen := (seen + 1) % IDX;
      book := Take(book);
    }

    /** The end of `virtio_disk_rw`: the request's record and descriptors. */
    method Finish(head: nat)
      requires Valid() && head in book.chains && book.chains[head].phase == Taken
      modifies this`book, free, desc, info
      ensures Placed(old(book), head) && Valid() && book == Reclaim(old(book), head)
    {
      ReclaimInv(book, head);
      info[head] := Nobody;
      FreeChain(head, book.chains[head]);
      book := Reclaim(book, head);
    }
  }

  lemma PostBlank(r: Ring, a: nat, b: nat, c: nat, buf: nat, req: BlkReq)
    requires Blank(r) && Free3(r, a, b, c)
    ensures Blank(PostAt(r, a, b, c, buf, req))
  {
  }

  lemma TakeRound(r: Ring, acc: seq<nat>)
    requires Inv(r) && r.seen != r.usedIdx
    ensures Inv(Take(r)) && Take(r).u - Take(r).t < r.u - r.t
    ensures var h := r.usedRing[r.seen % NUM];
            && h in r.chains && r.t < r.u
            && TakeFrom(r, acc) == TakeFrom(Take(r), acc + [r.chains[h].buf])
  {
    TakeInv(r);
  }

  lemma {:induction false} FirstFreeIs(free: seq<bool>, k: nat)
    requires k <= |free| && (k < |free| ==> free[k])
    requires forall j | 0 <= j < k :: !free[j]
    ensures FirstFree(free) == k
    decreases k
  {
    if k > 0 { FirstFreeIs(free[1..], k - 1); }
  }
}
