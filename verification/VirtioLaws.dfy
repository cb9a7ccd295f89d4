/** Every step of the ring protocol keeps the invariant. */
module VirtioLaws {
  import opened VirtioRing

  /* ---- the descriptor table ---- */

  predicate SameTable(r: Ring, r': Ring) {
    && r'.free == r.free && r'.desc == r.desc && r'.ops == r.ops && r'.info == r.info
    && |r'.availRing| == NUM && |r'.usedRing| == NUM && r'.chains.Keys == r.chains.Keys
    && forall h | h in r.chains ::
         var (a, b) := (r.chains[h], r'.chains[h]);
         a.mid == b.mid && a.last == b.last && a.buf == b.buf && a.req == b.req
  }

  /** Steps that only move requests along the rings leave the table alone. */
  lemma TableFrame(r: Ring, r': Ring)
    requires Structure(r) && SameTable(r, r')
    ensures Structure(r')
  {
    forall h | h in r'.chains
      ensures Placed(r', h)
    {
      assert Placed(r, h);
    }
    forall g, h | g in r'.chains && h in r'.chains
      ensures Disjoint(r', g, h)
    {
      assert Disjoint(r, g, h);
    }
    forall d: nat | d < NUM && !r'.free[d]
      ensures Owned(r', d)
    {
      assert Owned(r, d);
      var h :| h in r.chains && d in Members(h, r.chains[h]);
      assert h in r'.chains && d in Members(h, r'.chains[h]);
    }
    assert |r'.chains.Keys| == |r.chains.Keys|;
  }

  predicate Free3(r: Ring, a: nat, b: nat, c: nat) {
    && |r.free| == NUM && a < NUM && b < NUM && c < NUM && a != b && a != c && b != c
    && r.free[a] && r.free[b] && r.free[c]
  }

  lemma PostPlaced(r: Ring, a: nat, b: nat, c: nat, buf: nat, req: BlkReq, h: nat)
    requires Structure(r) && Free3(r, a, b, c) && (h in r.chains || h == a)
    ensures var r' := PostAt(r, a, b, c, buf, req); Sized(r') && h in r'.chains && Placed(r', h)
    ensures h in r.chains ==> h != a && Members(h, r.chains[h]) !! {a, b, c}
  {
    if h in r.chains { assert Placed(r, h); }
  }

  lemma PostOwned(r: Ring, a: nat, b: nat, c: nat, buf: nat, req: BlkReq)
    requires Structure(r) && Free3(r, a, b, c) && a !in r.chains
    ensures var r' := PostAt(r, a, b, c, buf, req);
            forall d: nat {:trigger Owned(r', d)} | d < NUM && !r'.free[d] :: Owned(r', d)
  {
    var r' := PostAt(r, a, b, c, buf, req);
    forall d: nat | d < NUM && !r'.free[d]
      ensures Owned(r', d)
    {
      if d in {a, b, c} {
        assert a in r'.chains && d in Members(a, r'.chains[a]);
      } else {
        assert Owned(r, d);
        var h :| h in r.chains && d in Members(h, r.chains[h]);
        assert h in r'.chains && d in Members(h, r'.chains[h]);
      }
    }
  }

  lemma PostAtTable(r: Ring, a: nat, b: nat, c: nat, buf: nat, req: BlkReq)
    requires Structure(r) && Free3(r, a, b, c)
    requires CountFree(r.free[a := false][b := false][c := false]) == CountFree(r.free) - 3
    ensures a !in r.chains && Structure(PostAt(r, a, b, c, buf, req))
  {
    var r' := PostAt(r, a, b, c, buf, req);
    if a in r.chains { PostPlaced(r, a, b, c, buf, req, a); }
    forall h | h in r'.chains
      ensures Placed(r', h)
    {
      PostPlaced(r, a, b, c, buf, req, h);
    }
    forall g, h | g in r'.chains && h in r'.chains
      ensures Disjoint(r', g, h)
    {
      if g in r.chains { PostPlaced(r, a, b, c, buf, req, g); }
      if h in r.chains { PostPlaced(r, a, b, c, buf, req, h); }
      if g in r.chains && h in r.chains { assert Disjoint(r, g, h); }
    }
    PostOwned(r, a, b, c, buf, req);
  }

  /** When three descriptors are free, posting takes the three lowest. */
  lemma PostIsPostAt(r: Ring, buf: nat, req: BlkReq) returns (a: nat, b: nat, c: nat)
    requires Sized(r) && CanPost(r)
    ensures (a, b, c) == Three(r.free) && Free3(r, a, b, c)
    ensures Post(r, buf, req) == PostAt(r, a, b, c, buf, req)
    ensures CountFree(r.free[a := false][b := false][c := false]) == CountFree(r.free) - 3
  {
    ThreeFree(r.free);
    a, b, c := Three(r.free).0, Three(r.free).1, Three(r.free).2;
  }

  lemma FreeThree(free: seq<bool>, a: nat, b: nat, c: nat)
    requires a < |free| && b < |free| && c < |free| && a != b && a != c && b != c
    requires !free[a] && !free[b] && !free[c]
    ensures CountFree(free[a := true][b := true][c := true]) == CountFree(free) + 3
  {
    CountSet(free, a, true);
    CountSet(free[a := true], b, true);
    CountSet(free[a := true][b := true], c, true);
  }

  /** Giving a chain back frees exactly its three descriptors. */
  lemma ReclaimTable(r: Ring, h: nat)
    requires Structure(r) && h in r.chains
    ensures Placed(r, h) && Structure(Reclaim(r, h))
  {
    assert Placed(r, h);
    var r' := Reclaim(r, h);
    FreeThree(r.free, h, r.chains[h].mid, r.chains[h].last);
    assert r'.chains.Keys == r.chains.Keys - {h};
    assert |r'.chains| == |r.chains| - 1;
    forall g | g in r'.chains
      ensures Placed(r', g)
    {
      ReclaimPlaced(r, h, g);
    }
    forall g, g' | g in r'.chains && g' in r'.chains
      ensures Disjoint(r', g, g')
    {
      assert Disjoint(r, g, g');
    }
    ReclaimOwned(r, h);
  }

  lemma ReclaimOwned(r: Ring, h: nat)
    requires Structure(r) && h in r.chains && Placed(r, h)
    ensures var r' := Reclaim(r, h);
            forall d: nat {:trigger Owned(r', d)} | d < NUM && !r'.free[d] :: Owned(r', d)
  {
    var r' := Reclaim(r, h);
    forall d: nat | d < NUM && !r'.free[d]
      ensures Owned(r', d)
    {
      assert Owned(r, d);
      var g :| g in r.chains && d in Members(g, r.chains[g]);
      assert g in r'.chains && d in Members(g, r'.chains[g]);
    }
  }

  lemma ReclaimPlaced(r: Ring, h: nat, g: nat)
    requires Structure(r) && h in r.chains && g in r.chains && g != h
    requires Placed(r, h)
    ensures g in Reclaim(r, h).chains && Placed(Reclaim(r, h), g)
  {
    assert Placed(r, g) && Disjoint(r, g, h);
  }

  /* ---- the rings ---- */

  lemma KeepAccounted(r: Ring, r': Ring)
    requires Queues(r) && r'.s == r.s && r.done <= r'.done && r.chains.Keys <= r'.chains.Keys
    requires forall h | h in r.chains :: r'.chains[h].serial == r.chains[h].serial
    requires forall h | h in r.chains && r.chains[h].phase != Taken ::
               r'.chains[h].phase != Taken || r.chains[h].serial in r'.done
    ensures forall k: nat {:trigger Accounted(r', k)} | k < r'.s :: Accounted(r', k)
  {
    forall k: nat | k < r'.s
      ensures Accounted(r', k)
    {
      assert Accounted(r, k);
      if k !in r'.done {
        var h :| h in r.chains && r.chains[h].serial == k && r.chains[h].phase != Taken;
        assert h in r'.chains && r'.chains[h].serial == k && r'.chains[h].phase != Taken;
      }
    }
  }

  lemma KeepUsedSlots(r: Ring, r': Ring)
    requires Queues(r) && Sized(r') && r.t <= r'.t && r'.u == r.u && r'.usedRing == r.usedRing
    requires forall h | h in r.chains && r.chains[h].phase == Used && r'.t <= r.chains[h].place ::
               h in r'.chains && r'.chains[h].phase == Used && r'.chains[h].place == r.chains[h].place
    ensures forall k: nat {:trigger UsedSlot(r', k)} | r'.t <= k < r'.u :: UsedSlot(r', k)
  {
    forall k: nat | r'.t <= k < r'.u
      ensures UsedSlot(r', k)
    {
      assert UsedSlot(r, k);
    }
  }

  lemma KeepAvailSlots(r: Ring, r': Ring)
    requires Queues(r) && Sized(r') && r.c <= r'.c && r'.s == r.s
    requires forall k: nat | r'.c <= k < r'.s :: r'.availRing[k % NUM] == r.availRing[k % NUM]
    requires forall h | h in r.chains && r.chains[h].phase == Queued && r'.c <= r.chains[h].serial ::
               h in r'.chains && r'.chains[h].phase == Queued && r'.chains[h].serial == r.chains[h].serial
    ensures forall k: nat {:trigger AvailSlot(r', k)} | r'.c <= k < r'.s :: AvailSlot(r', k)
  {
    forall k: nat | r'.c <= k < r'.s
      ensures AvailSlot(r', k)
    {
      assert AvailSlot(r, k);
    }
  }

  /** At most two requests are between publication and the driver. */
  lemma Window(r: Ring)
    requires Inv(r)
    ensures |r.chains| <= 2 && r.s - r.t <= |r.chains|
  {
    assert Pending(r) <= r.chains.Keys;
    SubsetSize(Pending(r), r.chains.Keys);
    assert CountFree(r.free) >= 0;
  }

  /** No chain is between the slot write and the index update. */
  predicate NoPosted(r: Ring) {
    forall h | h in r.chains :: r.chains[h].phase != Posted
  }

  /** The slot that posting writes is not one the device has yet to read. */
  lemma PostQueues(r: Ring, a: nat, b: nat, c: nat, buf: nat, req: BlkReq)
    requires Queues(r) && NoPosted(r) && a !in r.chains && a < NUM && b < NUM && c < NUM
    requires r.s <= r.t + 2 && r.availIdx % NUM == r.s % NUM
    ensures Queues(PostAt(r, a, b, c, buf, req))
  {
    var r' := PostAt(r, a, b, c, buf, req);
    assert Pending(r') == Pending(r);
    assert r.s !in r.done;
    forall h | h in r'.chains
      ensures PhaseOk(r', h)
    {
      if h != a {
        assert PhaseOk(r, h);
        if r.chains[h].phase == Queued { SlotsDiffer(r.chains[h].serial, r.s); }
      }
    }
    forall g, h | g in r'.chains && h in r'.chains
      ensures Apart(r', g, h)
    {
      if g != a { assert PhaseOk(r, g); }
      if h != a { assert PhaseOk(r, h); }
      if g != a && h != a { assert Apart(r, g, h); }
    }
    forall k: nat | r'.c <= k < r'.s
      ensures r'.availRing[k % NUM] == r.availRing[k % NUM]
    {
      SlotsDiffer(k, r.s);
    }
    KeepAvailSlots(r, r');
    KeepUsedSlots(r, r');
    KeepAccounted(r, r');
  }

  /** Posting adds one chain for the buffer and changes no outstanding request. */
  lemma PostInv(r: Ring, buf: nat, req: BlkReq)
    requires Inv(r) && CanPost(r) && NoPosted(r)
    ensures Inv(Post(r, buf, req))
    ensures var (a, b, c) := Three(r.free);
            a !in r.chains && Post(r, buf, req).chains == r.chains[a := Chain(b, c, buf, req, r.s, Posted, 0)]
  {
    var a, b, c := PostIsPostAt(r, buf, req);
    PostAtTable(r, a, b, c, buf, req);
    Window(r);
    Wraparound(r.s, r.s);
    PostQueues(r, a, b, c, buf, req);
  }

  lemma PublishInv(r: Ring, h: nat)
    requires Inv(r) && h in r.chains && r.chains[h].phase == Posted
    ensures Inv(Publish(r, h))
  {
    TableFrame(r, Publish(r, h));
    Wraparound(r.s, r.s);
    PublishQueues(r, h);
  }

  lemma PublishQueues(r: Ring, h: nat)
    requires Queues(r) && h in r.chains && r.chains[h].phase == Posted
    requires (r.availIdx + 1) % IDX == (r.s + 1) % IDX
    ensures Queues(Publish(r, h))
  {
    hide UsedSlot, Accounted, Pending;
    var r' := Publish(r, h);
    assert PhaseOk(r, h);
    PublishPending(r, h);
    forall g | g in r'.chains
      ensures PhaseOk(r', g)
    {
      assert PhaseOk(r, g) && Apart(r, g, h);
    }
    forall g, g' | g in r'.chains && g' in r'.chains
      ensures Apart(r', g, g')
    {
      assert Apart(r, g, g');
    }
    forall k: nat | r'.c <= k < r'.s
      ensures AvailSlot(r', k)
    {
      if k < r.s { assert AvailSlot(r, k); }
    }
    KeepUsedSlots(r, r');
    PublishAccounted(r, h);
  }

  lemma PublishPending(r: Ring, h: nat)
    requires Sized(r) && h in r.chains && r.chains[h].phase == Posted
    ensures |Pending(Publish(r, h))| == |Pending(r)| + 1
  {
    assert Pending(Publish(r, h)) == Pending(r) + {h};
  }

  lemma PublishAccounted(r: Ring, h: nat)
    requires Queues(r) && h in r.chains && r.chains[h].phase == Posted && r.chains[h].serial == r.s
    ensures var r' := Publish(r, h); forall k: nat {:trigger Accounted(r', k)} | k < r'.s :: Accounted(r', k)
  {
    var r' := Publish(r, h);
    forall k: nat | k < r'.s
      ensures Accounted(r', k)
    {
      if k < r.s {
        assert Accounted(r, k);
        if k !in r.done {
          var g :| g in r.chains && r.chains[g].serial == k && r.chains[g].phase != Taken;
          assert g in r'.chains && r'.chains[g].serial == k && r'.chains[g].phase != Taken;
        }
      } else {
        assert h in r'.chains && r'.chains[h].serial == k && r'.chains[h].phase != Taken;
      }
    }
  }

  /** While entries wait, the device finds the oldest published request. */
  lemma ConsumeInv(r: Ring)
    requires Inv(r)
    ensures Inv(Consume(r))
    ensures r.devSeen != r.availIdx <==> r.c < r.s
    ensures r.c < r.s ==> var h := r.availRing[r.devSeen % NUM];
                          && h in r.chains && r.chains[h].serial == r.c
                          && Consume(r).chains == r.chains[h := r.chains[h].(phase := InDevice)]
  {
    Window(r);
    Wraparound(r.c, r.s);
    Wraparound(r.c, r.c);
    if r.c < r.s {
      assert AvailSlot(r, r.c);
      TableFrame(r, Consume(r));
      ConsumeQueues(r);
    }
  }

  lemma ConsumeQueues(r: Ring)
    requires Queues(r) && r.c < r.s && r.devSeen != r.availIdx && r.devSeen % NUM == r.c % NUM
    requires (r.devSeen + 1) % IDX == (r.c + 1) % IDX
    ensures Queues(Consume(r))
  {
    var r' := Consume(r);
    assert AvailSlot(r, r.c);
    var h := r.availRing[r.c % NUM];
    assert PhaseOk(r, h);
    assert Pending(r') == Pending(r);
    forall g | g in r'.chains
      ensures PhaseOk(r', g)
    {
      assert PhaseOk(r, g) && Apart(r, g, h);
    }
    forall g, g' | g in r'.chains && g' in r'.chains
      ensures Apart(r', g, g')
    {
      assert Apart(r, g, g');
    }
    KeepAvailSlots(r, r');
    KeepUsedSlots(r, r');
    KeepAccounted(r, r');
  }

  /** The device may finish its requests in any order. */
  lemma CompleteInv(r: Ring, h: nat)
    requires Inv(r) && h in r.chains && r.chains[h].phase == InDevice
    ensures Inv(Complete(r, h))
  {
    TableFrame(r, Complete(r, h));
    Window(r);
    SpareChain(r, h);
    Wraparound(r.u, r.u);
    CompleteQueues(r, h);
  }

  lemma CompletePhase(r: Ring, h: nat, g: nat)
    requires Queues(r) && h in r.chains && r.chains[h].phase == InDevice && g in r.chains
    requires r.u < r.c && r.s <= r.t + 2 && r.usedIdx % NUM == r.u % NUM
    ensures PhaseOk(Complete(r, h), g)
  {
    assert PhaseOk(r, g) && PhaseOk(r, h);
    if g != h && r.chains[g].phase == Used { SlotsDiffer(r.chains[g].place, r.u); }
  }

  lemma CompleteQueues(r: Ring, h: nat)
    requires Queues(r) && h in r.chains && r.chains[h].phase == InDevice
    requires r.u < r.c && r.s <= r.t + 2 && r.usedIdx % NUM == r.u % NUM
    requires (r.usedIdx + 1) % IDX == (r.u + 1) % IDX
    ensures Queues(Complete(r, h))
  {
    hide Pending, AvailSlot, Accounted;
    var r' := Complete(r, h);
    assert PhaseOk(r, h);
    CompletePending(r, h);
    forall g | g in r'.chains
      ensures PhaseOk(r', g)
    {
      CompletePhase(r, h, g);
    }
    forall g, g' | g in r'.chains && g' in r'.chains
      ensures Apart(r', g, g')
    {
      assert Apart(r, g, g') && PhaseOk(r, g) && PhaseOk(r, g');
    }
    forall k: nat | r'.t <= k < r'.u
      ensures UsedSlot(r', k)
    {
      if k < r.u { assert UsedSlot(r, k); SlotsDiffer(k, r.u); }
    }
    KeepAvailSlots(r, r');
    KeepAccounted(r, r');
  }

  lemma CompletePending(r: Ring, h: nat)
    requires Sized(r) && h in r.chains && r.chains[h].phase == InDevice
    ensures Pending(Complete(r, h)) == Pending(r)
  {
  }

  /** A request inside the device was consumed and is not yet reported. */
  lemma SpareChain(r: Ring, h: nat)
    requires Inv(r) && h in r.chains && r.chains[h].phase == InDevice
    ensures r.u < r.c
  {
    Window(r);
    assert PhaseOk(r, h);
    var rest := Pending(r) - {h};
    if r.u == r.c {
      if r.t < r.u { UsedMember(r, h, r.t); }
      if r.t + 1 < r.u { UsedMember(r, h, r.t + 1); TwoIn(rest, r.usedRing[r.t % NUM], r.usedRing[(r.t + 1) % NUM]); }
      if r.c < r.s { AvailMember(r, h, r.c); }
      if r.c + 1 < r.s { AvailMember(r, h, r.c + 1); TwoIn(rest, r.availRing[r.c % NUM], r.availRing[(r.c + 1) % NUM]);
                        }
      if r.c < r.s && r.t < r.u { TwoIn(rest, r.availRing[r.c % NUM], r.usedRing[r.t % NUM]); }
    }
  }

  lemma AvailMember(r: Ring, h: nat, k: nat)
    requires Queues(r) && h in r.chains && r.chains[h].phase == InDevice && r.c <= k < r.s
    ensures var g := r.availRing[k % NUM];
            g in Pending(r) - {h} && r.chains[g].serial == k && r.chains[g].phase == Queued
  {
    assert AvailSlot(r, k);
  }

  lemma UsedMember(r: Ring, h: nat, k: nat)
    requires Queues(r) && h in r.chains && r.chains[h].phase == InDevice && r.t <= k < r.u
    ensures var g := r.usedRing[k % NUM]; g in Pending(r) - {h} && r.chains[g].place == k && r.chains[g].phase == Used
  {
    assert UsedSlot(r, k);
  }

  lemma TwoIn(s: set<nat>, x: nat, y: nat)
    ensures x in s && y in s && x != y ==> |s| >= 2
  {
    if x in s && y in s && x != y {
      SubsetSize({x, y}, s);
    }
  }

  /** The interrupt handler finds an outstanding chain with its buffer recorded,
      and each completion is taken once. */
  lemma TakeInv(r: Ring)
    requires Inv(r)
    ensures Inv(Take(r))
    ensures r.seen != r.usedIdx <==> r.t < r.u
    ensures r.t < r.u ==> var h := r.usedRing[r.seen % NUM];
                          && h in r.chains && h < NUM && r.chains[h].phase == Used
                          && r.info[h] == Buffer(r.chains[h].buf)
                          && r.chains[h].serial !in r.done
                          && Take(r).done == r.done + {r.chains[h].serial}
                          && Take(r).chains == r.chains[h := r.chains[h].(phase := Taken)]
  {
    Window(r);
    Wraparound(r.t, r.u);
    Wraparound(r.t, r.t);
    if r.t < r.u {
      assert UsedSlot(r, r.t);
      var h := r.usedRing[r.seen % NUM];
      assert Placed(r, h) && PhaseOk(r, h);
      TableFrame(r, Take(r));
      TakeQueues(r);
    }
  }

  lemma TakeQueues(r: Ring)
    requires Queues(r) && r.t < r.u && r.seen != r.usedIdx && r.seen % NUM == r.t % NUM
    requires (r.seen + 1) % IDX == (r.t + 1) % IDX
    ensures Queues(Take(r))
  {
    var r' := Take(r);
    assert UsedSlot(r, r.t);
    var h := r.usedRing[r.t % NUM];
    assert PhaseOk(r, h);
    assert Pending(r') == Pending(r) - {h};
    forall g | g in r'.chains
      ensures PhaseOk(r', g)
    {
      assert PhaseOk(r, g) && Apart(r, g, h);
    }
    forall g, g' | g in r'.chains && g' in r'.chains
      ensures Apart(r', g, g')
    {
      assert Apart(r, g, g');
    }
    KeepAvailSlots(r, r');
    KeepUsedSlots(r, r');
    KeepAccounted(r, r');
  }

  lemma ReclaimInv(r: Ring, h: nat)
    requires Inv(r) && h in r.chains && r.chains[h].phase == Taken
    ensures Placed(r, h) && Inv(Reclaim(r, h))
  {
    ReclaimTable(r, h);
    ReclaimQueues(r, h);
  }

  lemma ReclaimQueues(r: Ring, h: nat)
    requires Queues(r) && h in r.chains && r.chains[h].phase == Taken && Placed(r, h)
    ensures Queues(Reclaim(r, h))
  {
    var r' := Reclaim(r, h);
    assert Pending(r') == Pending(r);
    forall g | g in r'.chains
      ensures PhaseOk(r', g)
    {
      assert PhaseOk(r, g);
    }
    forall g, g' | g in r'.chains && g' in r'.chains
      ensures Apart(r', g, g')
    {
      assert Apart(r, g, g');
    }
    KeepAvailSlots(r, r');
    KeepUsedSlots(r, r');
    forall k: nat | k < r'.s
      ensures Accounted(r', k)
    {
      assert Accounted(r, k);
      if k !in r.done {
        var g :| g in r.chains && r.chains[g].serial == k && r.chains[g].phase != Taken;
        assert g in r'.chains && r'.chains[g].serial == k && r'.chains[g].phase != Taken;
      }
    }
  }

  /* ---- every interleaving ---- */

  datatype Act = DoPost(buf: nat, req: BlkReq) | DoPublish(h: nat) | DoConsume | DoComplete(h: nat)
               | DoTake | DoReclaim(h: nat)

  /** What the code and the device may do next. Posting and publishing happen
      under disk.lock, so no second post starts in between. */
  predicate Enabled(r: Ring, a: Act)
    requires Sized(r)
  {
    match a
    case DoPost(_, _) => CanPost(r) && NoPosted(r)
    case DoPublish(h) => h in r.chains && r.chains[h].phase == Posted
    case DoConsume => r.devSeen != r.availIdx
    case DoComplete(h) => h in r.chains && r.chains[h].phase == InDevice
    case DoTake => r.seen != r.usedIdx
    case DoReclaim(h) => h in r.chains && r.chains[h].phase == Taken
  }

  ghost function Do(r: Ring, a: Act): (r': Ring)
    requires Inv(r) && Enabled(r, a)
    ensures Inv(r')
  {
    match a
    case DoPost(b, q) => PostInv(r, b, q); Post(r, b, q)
    case DoPublish(h) => PublishInv(r, h); Publish(r, h)
    case DoConsume => ConsumeInv(r); Consume(r)
    case DoComplete(h) => CompleteInv(r, h); Complete(r, h)
    case DoTake => TakeInv(r); Take(r)
    case DoReclaim(h) => ReclaimInv(r, h); Reclaim(r, h)
  }

  /** An act that is not possible now changes nothing: the driver polls or
      spins, or the device is idle. */
  ghost function Exec(r: Ring, a: Act): (r': Ring)
    requires Inv(r)
    ensures Inv(r')
  {
    if Enabled(r, a) then Do(r, a) else r
  }

  ghost function Run(acts: seq<Act>): (r: Ring)
    ensures Inv(r)
  {
    if acts == [] then InitInv(); Init()
    else Exec(Run(acts[..|acts| - 1]), acts[|acts| - 1])
  }

  function Completed(r: Ring, a: Act): seq<nat>
    requires Sized(r)
  {
    var h := r.usedRing[r.seen % NUM];
    if a.DoTake? && r.seen != r.usedIdx && h in r.chains then [r.chains[h].serial] else []
  }

  /** The serials whose completions the interrupt handler took, in order. */
  ghost function TakenIn(acts: seq<Act>): seq<nat> {
    if acts == [] then []
    else TakenIn(acts[..|acts| - 1]) + Completed(Run(acts[..|acts| - 1]), acts[|acts| - 1])
  }

  /** In every reachable ring outstanding chains are disjoint, free descriptors
      plus three per chain make 8, and a third request has to wait. */
  lemma EveryRunSafe(acts: seq<Act>)
    ensures var r := Run(acts);
            && (forall g, h | g in r.chains && h in r.chains && g != h ::
                  {g, r.chains[g].mid, r.chains[g].last} !! {h, r.chains[h].mid, r.chains[h].last})
            && CountFree(r.free) + 3 * |r.chains| == NUM
            && (CanPost(r) <==> |r.chains| <= 1)
  {
    var r := Run(acts);
    forall g, h | g in r.chains && h in r.chains && g != h
      ensures {g, r.chains[g].mid, r.chains[g].last} !! {h, r.chains[h].mid, r.chains[h].last}
    {
      assert Disjoint(r, g, h);
    }
  }

  /** No request completes twice, and once nothing is outstanding every
      published request has completed, on any interleaving and past any number
      of index wraparounds. */
  lemma CompletesOnce(acts: seq<Act>)
    ensures forall i, j | 0 <= i < j < |TakenIn(acts)| :: TakenIn(acts)[i] != TakenIn(acts)[j]
    ensures forall k | k in TakenIn(acts) :: k < Run(acts).s
    ensures Run(acts).chains == map[] ==> forall k: nat | k < Run(acts).s :: k in TakenIn(acts)
  {
    var r := Run(acts);
    TakenIsDone(acts);
    forall k | k in TakenIn(acts)
      ensures k < r.s
    {
      assert k in r.done;
    }
    if r.chains == map[] {
      forall k: nat | k < r.s
        ensures k in TakenIn(acts)
      {
        assert Accounted(r, k);
        assert k in r.done;
      }
    }
  }

  lemma {:induction false} TakenIsDone(acts: seq<Act>)
    ensures (set k | k in TakenIn(acts)) == Run(acts).done
    ensures forall i, j | 0 <= i < j < |TakenIn(acts)| :: TakenIn(acts)[i] != TakenIn(acts)[j]
    decreases |acts|
  {
    if acts != [] {
      var before := acts[..|acts| - 1];
      TakenIsDone(before);
      TakenStep(Run(before), acts[|acts| - 1], TakenIn(before));
    }
  }

  lemma TakenStep(p: Ring, a: Act, taken: seq<nat>)
    requires Inv(p) && (set k | k in taken) == p.done
    requires forall i, j | 0 <= i < j < |taken| :: taken[i] != taken[j]
    ensures var (r, now) := (Exec(p, a), taken + Completed(p, a));
            && (set k | k in now) == r.done
            && (forall i, j | 0 <= i < j < |now| :: now[i] != now[j])
  {
    var r, now := Exec(p, a), taken + Completed(p, a);
    if a.DoTake? && p.seen != p.usedIdx {
      TakeInv(p);
      var k := p.chains[p.usedRing[p.seen % NUM]].serial;
      assert now == taken + [k] && k !in taken;
      assert r.done == p.done + {k};
    } else {
      assert now == taken;
      assert r.done == p.done;
    }
  }

  /* ---- the device's side of a chain ---- */

  datatype Parsed = Command(req: BlkReq, buf: nat) | Malformed

  /** What a device makes of the chain that starts at descriptor h, after section
      5.2.6 of VIRTIO 1.1: a 16-byte header to read, 512 bytes of data, to be written
      exactly by a read of the disk, and a status byte to write. */
  function Parse(r: Ring, h: nat): Parsed
    requires Sized(r) && h < NUM
  {
    var head := r.desc[h];
    if !head.addr.OpAt? || head.addr.i >= NUM || head.len != 16 || head.write_flag || !head.next_flag
       || head.next >= NUM then Malformed
    else
      var req, data := r.ops[head.addr.i], r.desc[head.next];
      if !data.addr.DataOf? || data.len != 512 || data.write_flag == req.write || !data.next_flag
         || data.next >= NUM then Malformed
      else
        var status := r.desc[data.next];
        if !status.addr.StatusAt? || status.len != 1 || !status.write_flag || status.next_flag then Malformed
        else Command(req, data.addr.buf)
  }

  /** Every outstanding chain is, to the device, the request it was made for. */
  lemma DeviceParses(r: Ring, h: nat)
    requires Inv(r) && h in r.chains
    ensures h < NUM && Parse(r, h) == Command(r.chains[h].req, r.chains[h].buf)
  {
    assert Placed(r, h);
  }
}
