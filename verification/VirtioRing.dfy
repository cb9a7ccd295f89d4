/** The disk ring of `kernel/virtio_disk.c` as a protocol between the driver and
    the device: section 2.6 (split virtqueues) and section 5.2 (block device) of
    VIRTIO 1.1. The state holds what the memory holds; the ghost-like fields
    chains, s, c, u, t and done say what it means. */
module VirtioRing {

  const NUM: nat := 8
  const IDX: nat := 0x1_0000   // ring indices are 16-bit

  datatype Addr = NoAddr | OpAt(i: nat) | DataOf(buf: nat) | StatusAt(i: nat)
  datatype Desc = Desc(addr: Addr, len: nat, next_flag: bool, write_flag: bool, next: nat)
  datatype BlkReq = BlkReq(write: bool, sector: nat)
  datatype Owner = Nobody | Buffer(buf: nat)

  datatype Phase = Posted | Queued | InDevice | Used | Taken
  /** An outstanding request: its three descriptors (the head is the key), its
      buffer and command, its place in the order of publication, its phase and,
      once used, its place in the order of completion. */
  datatype Chain = Chain(mid: nat, last: nat, buf: nat, req: BlkReq, serial: nat, phase: Phase, place: nat)

  datatype Ring = Ring(
    free: seq<bool>,         // disk.free
    desc: seq<Desc>,         // disk.desc
    ops: seq<BlkReq>,        // disk.ops
    info: seq<Owner>,        // disk.info[].b
    availRing: seq<nat>, availIdx: nat,   // written by the driver
    usedRing: seq<nat>, usedIdx: nat,     // written by the device
    seen: nat,               // disk.used_idx
    devSeen: nat,            // the device's own position in the avail ring
    chains: map<nat, Chain>,
    s: nat, c: nat, u: nat, t: nat,       // published, consumed, used, taken; unbounded
    done: set<nat>)          // serials whose completion the driver has taken

  const NO_DESC := Desc(NoAddr, 0, false, false, 0)

  function Init(): Ring {
    Ring(seq(NUM, _ => true), seq(NUM, _ => NO_DESC), seq(NUM, _ => BlkReq(false, 0)),
         seq(NUM, _ => Nobody), seq(NUM, _ => 0), 0, seq(NUM, _ => 0), 0, 0, 0, map[], 0, 0, 0, 0, {})
  }

  function CountFree(free: seq<bool>): nat {
    if free == [] then 0 else (if free[0] then 1 else 0) + CountFree(free[1..])
  }

  predicate Sized(r: Ring) {
    |r.free| == NUM && |r.desc| == NUM && |r.ops| == NUM && |r.info| == NUM
    && |r.availRing| == NUM && |r.usedRing| == NUM
  }

  function Members(h: nat, ch: Chain): set<nat> { {h, ch.mid, ch.last} }

  /** The descriptors in memory spell out the request. */
  predicate Written(r: Ring, h: nat, ch: Chain)
    requires Sized(r)
  {
    && h < NUM && ch.mid < NUM && ch.last < NUM
    && h != ch.mid && h != ch.last && ch.mid != ch.last
    && r.ops[h] == ch.req
    && r.desc[h] == Desc(OpAt(h), 16, true, false, ch.mid)
    && r.desc[ch.mid] == Desc(DataOf(ch.buf), 512, true, !ch.req.write, ch.last)
    && r.desc[ch.last] == Desc(StatusAt(h), 1, false, true, 0)
    && r.info[h] == Buffer(ch.buf)
  }

  predicate Placed(r: Ring, h: nat)
    requires Sized(r) && h in r.chains
  {
    var ch := r.chains[h];
    Written(r, h, ch) && !r.free[h] && !r.free[ch.mid] && !r.free[ch.last]
  }

  predicate Disjoint(r: Ring, g: nat, h: nat)
    requires g in r.chains && h in r.chains
  {
    g != h ==> Members(g, r.chains[g]) !! Members(h, r.chains[h])
  }

  /** The descriptor table holds exactly the outstanding chains. */
  ghost predicate Structure(r: Ring) {
    && Sized(r)
    && (forall h {:trigger Placed(r, h)} | h in r.chains :: Placed(r, h))
    && (forall g, h {:trigger Disjoint(r, g, h)} | g in r.chains && h in r.chains :: Disjoint(r, g, h))
    && (forall d: nat {:trigger Owned(r, d)} | d < NUM && !r.free[d] :: Owned(r, d))
    && CountFree(r.free) + 3 * |r.chains| == NUM
  }

  predicate PhaseOk(r: Ring, h: nat)
    requires Sized(r) && h in r.chains
  {
    var ch := r.chains[h];
    && (ch.phase == Posted ==> ch.serial == r.s && r.availRing[r.s % NUM] == h)
    && (ch.phase != Posted ==> ch.serial < r.s)
    && (ch.phase == Queued <==> r.c <= ch.serial < r.s)
    && (ch.phase == Queued ==> r.availRing[ch.serial % NUM] == h)
    && (ch.phase == Used ==> r.t <= ch.place < r.u && r.usedRing[ch.place % NUM] == h)
    && (ch.phase == Taken <==> ch.serial in r.done)
  }

  predicate Apart(r: Ring, g: nat, h: nat)
    requires g in r.chains && h in r.chains
  {
    g != h ==>
      && r.chains[g].serial != r.chains[h].serial
      && (r.chains[g].phase == Used && r.chains[h].phase == Used ==> r.chains[g].place != r.chains[h].place)
  }

  /** Ring entry k of the avail (used) ring belongs to an outstanding chain. */
  predicate AvailSlot(r: Ring, k: nat)
    requires Sized(r)
  {
    var h := r.availRing[k % NUM];
    h in r.chains && r.chains[h].phase == Queued && r.chains[h].serial == k
  }

  predicate UsedSlot(r: Ring, k: nat)
    requires Sized(r)
  {
    var h := r.usedRing[k % NUM];
    h in r.chains && r.chains[h].phase == Used && r.chains[h].place == k
  }

  ghost predicate Owned(r: Ring, d: nat) {
    exists h :: h in r.chains && d in Members(h, r.chains[h])
  }

  ghost predicate Accounted(r: Ring, k: nat) {
    k in r.done || exists h :: h in r.chains && r.chains[h].serial == k && r.chains[h].phase != Taken
  }

  /** Published and not yet taken back. */
  ghost function Pending(r: Ring): set<nat> {
    set h | h in r.chains && r.chains[h].phase != Posted && r.chains[h].phase != Taken
  }

  predicate Counters(r: Ring) {
    && r.t <= r.u <= r.c <= r.s
    && r.availIdx == r.s % IDX && r.devSeen == r.c % IDX && r.usedIdx == r.u % IDX && r.seen == r.t % IDX
  }

  /** The rings list the outstanding requests in order, each once. */
  ghost predicate Queues(r: Ring) {
    && Sized(r) && Counters(r) && r.s - r.t == |Pending(r)|
    && (forall h {:trigger PhaseOk(r, h)} | h in r.chains :: PhaseOk(r, h))
    && (forall g, h {:trigger Apart(r, g, h)} | g in r.chains && h in r.chains :: Apart(r, g, h))
    && (forall k: nat {:trigger AvailSlot(r, k)} | r.c <= k < r.s :: AvailSlot(r, k))
    && (forall k: nat {:trigger UsedSlot(r, k)} | r.t <= k < r.u :: UsedSlot(r, k))
    && (forall k: nat {:trigger Accounted(r, k)} | k < r.s :: Accounted(r, k))
    && (forall k {:trigger k in r.done} | k in r.done :: k < r.c)
    && |r.done| == r.t
  }

  ghost predicate Inv(r: Ring) {
    Structure(r) && Queues(r)
  }

  /* ---- steps ---- */

  /** `alloc_desc`: the lowest free descriptor, NUM when there is none. */
  function FirstFree(free: seq<bool>): (i: nat)
    ensures i <= |free|
    ensures i < |free| ==> free[i]
    ensures forall j | 0 <= j < i :: !free[j]
  {
    if free == [] then 0 else if free[0] then 0 else 1 + FirstFree(free[1..])
  }

  predicate CanPost(r: Ring) { CountFree(r.free) >= 3 }

  function Claim(free: seq<bool>): seq<bool> {
    var i := FirstFree(free);
    if i < |free| then free[i := false] else free
  }

  /** The three descriptors `alloc3_desc` takes. */
  function Three(free: seq<bool>): (nat, nat, nat) {
    (FirstFree(free), FirstFree(Claim(free)), FirstFree(Claim(Claim(free))))
  }

  /** The chain a, b, c written out, and a stored in the next avail slot. */
  function PostAt(r: Ring, a: nat, b: nat, c: nat, buf: nat, req: BlkReq): Ring
    requires Sized(r) && a < NUM && b < NUM && c < NUM
  {
    r.(free := r.free[a := false][b := false][c := false],
       ops := r.ops[a := req],
       desc := r.desc[a := Desc(OpAt(a), 16, true, false, b)]
                     [b := Desc(DataOf(buf), 512, true, !req.write, c)]
                     [c := Desc(StatusAt(a), 1, false, true, 0)],
       info := r.info[a := Buffer(buf)],
       availRing := r.availRing[r.availIdx % NUM := a],
       chains := r.chains[a := Chain(b, c, buf, req, r.s, Posted, 0)])
  }

  /** `virtio_disk_rw` up to the write of the avail slot; it spins while three
      descriptors are not free. */
  function Post(r: Ring, buf: nat, req: BlkReq): Ring
    requires Sized(r)
  {
    var (a, b, c) := Three(r.free);
    if a < NUM && b < NUM && c < NUM then PostAt(r, a, b, c, buf, req) else r
  }

  /** avail->idx += 1. */
  function Publish(r: Ring, h: nat): Ring
    requires h in r.chains
  {
    r.(availIdx := (r.availIdx + 1) % IDX, s := r.s + 1,
       chains := r.chains[h := r.chains[h].(phase := Queued)])
  }

  /** The device reads the next avail entry. */
  function Consume(r: Ring): Ring
    requires Sized(r)
  {
    var h := r.availRing[r.devSeen % NUM];
    if r.devSeen != r.availIdx && h in r.chains then
      r.(devSeen := (r.devSeen + 1) % IDX, c := r.c + 1,
         chains := r.chains[h := r.chains[h].(phase := InDevice)])
    else r
  }

  /** The device finishes any request it holds and reports it. */
  function Complete(r: Ring, h: nat): Ring
    requires Sized(r) && h in r.chains
  {
    r.(usedRing := r.usedRing[r.usedIdx % NUM := h], usedIdx := (r.usedIdx + 1) % IDX, u := r.u + 1,
       chains := r.chains[h := r.chains[h].(phase := Used, place := r.u)])
  }

  /** One round of the loop in `virtio_disk_intr`. */
  function Take(r: Ring): Ring
    requires Sized(r)
  {
    var h := r.usedRing[r.seen % NUM];
    if r.seen != r.usedIdx && h in r.chains then
      r.(seen := (r.seen + 1) % IDX, t := r.t + 1, done := r.done + {r.chains[h].serial},
         chains := r.chains[h := r.chains[h].(phase := Taken)])
    else r
  }

  /** `disk.info[h].b = 0; free_chain(h)`. */
  function Reclaim(r: Ring, h: nat): Ring
    requires Sized(r) && h in r.chains && h < NUM && r.chains[h].mid < NUM && r.chains[h].last < NUM
  {
    var ch := r.chains[h];
    r.(free := r.free[h := true][ch.mid := true][ch.last := true],
       desc := r.desc[h := NO_DESC][ch.mid := NO_DESC][ch.last := NO_DESC],
       info := r.info[h := Nobody],
       chains := r.chains - {h})
  }

  /* ---- counting ---- */

  lemma {:induction false} CountSet(free: seq<bool>, i: nat, v: bool)
    requires i < |free|
    ensures CountFree(free[i := v]) == CountFree(free) + (if v then 1 else 0) - (if free[i] then 1 else 0)
  {
    if i > 0 {
      assert free[i := v][1..] == free[1..][i - 1 := v];
      CountSet(free[1..], i - 1, v);
    } else {
      assert free[0 := v][1..] == free[1..];
    }
  }

  lemma {:induction false} SomeFree(free: seq<bool>)
    ensures CountFree(free) > 0 <==> FirstFree(free) < |free|
  {
    if free != [] { SomeFree(free[1..]); }
  }

  lemma {:induction false} CountAll(n: nat)
    ensures CountFree(seq(n, _ => true)) == n
  {
    if n > 0 {
      assert seq(n, _ => true)[1..] == seq(n - 1, _ => true);
      CountAll(n - 1);
    }
  }

  lemma ThreeFree(free: seq<bool>)
    requires |free| == NUM
    ensures var (a, b, c) := Three(free);
            && (CountFree(free) >= 3 <==> a < NUM && b < NUM && c < NUM)
            && (CountFree(free) >= 3 ==>
                  && a != b && a != c && b != c && free[a] && free[b] && free[c]
                  && Claim(Claim(Claim(free))) == free[a := false][b := false][c := false]
                  && CountFree(Claim(Claim(Claim(free)))) == CountFree(free) - 3)
  {
    var f1 := Claim(free);
    var f2 := Claim(f1);
    SomeFree(free);
    SomeFree(f1);
    SomeFree(f2);
    if FirstFree(free) < NUM { CountSet(free, FirstFree(free), false); }
    if FirstFree(f1) < NUM { CountSet(f1, FirstFree(f1), false); }
    if FirstFree(f2) < NUM { CountSet(f2, FirstFree(f2), false); }
  }

  lemma InitInv()
    ensures Inv(Init())
  {
    CountAll(NUM);
    assert Pending(Init()) == {};
  }

  lemma {:induction false} SubsetSize(a: set<nat>, b: set<nat>)
    requires a <= b
    ensures |a| <= |b|
  {
    if a != {} {
      var x :| x in a;
      SubsetSize(a - {x}, b - {x});
    }
  }

  /** Index comparisons modulo 2^16 and slots modulo 8 agree with the unbounded
      counters, across wraparound. */
  lemma Wraparound(a: nat, b: nat)
    requires a <= b <= a + 2
    ensures a % IDX == b % IDX <==> a == b
    ensures (a % IDX) % NUM == a % NUM
    ensures (a % IDX + 1) % IDX == (a + 1) % IDX
  {
    SlotOfIndex(a);
    NextIndex(a);
    NextIndex(a + 1);
  }

  lemma NextIndex(a: nat)
    ensures (a + 1) % IDX == if a % IDX == IDX - 1 then 0 else a % IDX + 1
    ensures (a % IDX + 1) % IDX == (a + 1) % IDX
  {
  }

  lemma SlotOfIndex(a: nat)
    ensures (a % IDX) % NUM == a % NUM
  {
    var q := a / IDX;
    assert a == 8 * (8192 * q) + a % IDX;
    Mod8(a % IDX, 8192 * q);
  }

  lemma Mod8(y: nat, m: nat)
    ensures (8 * m + y) % NUM == y % NUM
  {
  }

  lemma SlotsDiffer(a: nat, b: nat)
    requires a < b <= a + 2
    ensures a % NUM != b % NUM
  {
  }
}
