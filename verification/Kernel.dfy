/** One hart running threads, the scheduler and the disk interrupt, as steps:
    `kernel/coro.c`, `kernel/thread.c`, `kernel/strap.c`, `kernel/virtio_disk.c`
    and `kernel/waitqueue.c` together. A step ends wherever the device may come in
    between or a lock changes hands, and wherever an interrupt can find a
    different state. `intr_push` raises its count before it turns interrupts off,
    so a handler may also run inside it at count 1; it then finds the locks as
    before the push and leaves the count as it was, like one just before it. */
module Kernel {
  import opened Interrupts
  import opened VirtioRing
  import opened VirtioLaws

  datatype TState = Unused | Running | Ready | Sleeping
  datatype Wait = NoWait | OnBuf(b: nat) | OnChild

  /** What a thread does after `sched` returns. */
  datatype Cont = KDisk(b: nat, h: nat) | KTrap | KChild | KDead

  datatype Pc =
    | Fresh                        // never ran: starts in entry_to_user
    | User                         // in user mode
    | Trap                         // in usertrap or a system call
    | RwLocked(b: nat, req: BlkReq)  // virtio_disk_rw, disk.lock taken
    | RwPosted(b: nat, h: nat)     // chain and avail slot written
    | RwPublished(b: nat, h: nat)  // avail index advanced
    | RwWait(b: nat, h: nat)       // disk.lock released, not yet asleep
    | Calling(k: Cont)             // about to call sched
    | Unlocked(k: Cont)            // in sched, own lock released
    | Parked(k: Cont)              // switched out
    | Back(k: Cont)                // dispatched, switch_coro returns
    | Resumed(k: Cont)             // sched returned
    | RwReclaim(b: nat, h: nat)    // disk.lock taken again

  datatype Thread = Thread(state: TState, lock: bool, waiting: Wait, pc: Pc)
  datatype Buf = Buf(disk: bool, queue: seq<nat>)  // b->disk, b->wait_queue

  datatype Sys = Sys(
    cpu: CpuState,
    current: int,              // the running thread, -1 for the scheduler
    threads: seq<Thread>,
    diskLock: bool,
    bufs: seq<Buf>,
    ring: Ring)

  /* ---- the invariant ---- */

  /** The nesting count each point of the code stands at. */
  function Nesting(pc: Pc): nat {
    match pc
    case Fresh => 1
    case Back(_) => 1
    case User => 1
    case Trap => 2
    case RwWait(_, _) => 2
    case Calling(_) => 2
    case Resumed(_) => 2
    case RwLocked(_, _) => 3
    case RwPosted(_, _) => 3
    case RwPublished(_, _) => 3
    case RwReclaim(_, _) => 3
    case Unlocked(_) => 0
    case Parked(_) => 0
  }

  predicate HoldsDiskLock(pc: Pc) {
    pc.RwLocked? || pc.RwPosted? || pc.RwPublished? || pc.RwReclaim?
  }

  /** The request a thread is in the middle of. */
  predicate HasRequest(pc: Pc) {
    match pc
    case RwPosted(_, _) => true
    case RwPublished(_, _) => true
    case RwWait(_, _) => true
    case RwReclaim(_, _) => true
    case Calling(k) => k.KDisk?
    case Unlocked(k) => k.KDisk?
    case Parked(k) => k.KDisk?
    case Back(k) => k.KDisk?
    case Resumed(k) => k.KDisk?
    case _ => false
  }

  function Request(pc: Pc): (nat, nat)
    requires HasRequest(pc)
  {
    match pc
    case RwPosted(b, h) => (b, h)
    case RwPublished(b, h) => (b, h)
    case RwWait(b, h) => (b, h)
    case RwReclaim(b, h) => (b, h)
    case Calling(k) => (k.b, k.h)
    case Unlocked(k) => (k.b, k.h)
    case Parked(k) => (k.b, k.h)
    case Back(k) => (k.b, k.h)
    case Resumed(k) => (k.b, k.h)
  }

  /** State of a thread that is giving up, or has given up, the hart. */
  predicate Yielded(th: Thread, k: Cont) {
    match k
    case KDisk(b, _) => th.state == Ready || (th.state == Sleeping && th.waiting == OnBuf(b))
    case KTrap => th.state == Ready
    case KChild => th.state == Ready || (th.state == Sleeping && th.waiting == OnChild)
    case KDead => th.state == Unused
  }

  /** A thread that is not the current one is parked, unlocked and not running. */
  predicate Idle(th: Thread) {
    && !th.lock
    && (th.pc.Fresh? ==> th.state == Ready)
    && (th.pc.Fresh? || (th.pc.Parked? && Yielded(th, th.pc.k)))
  }

  /** The current thread agrees with the nesting count and holds its lock. */
  predicate Active(th: Thread, cpu: CpuState) {
    && !th.pc.Parked?
    && cpu.push == Nesting(th.pc)
    && th.lock == !th.pc.Unlocked?
    && (cpu.push > 0 ==> cpu.status && (!th.pc.User? ==> !cpu.sie))
    && (cpu.push == 0 ==> cpu.sie)
    && (if th.pc.Calling? || th.pc.Unlocked? then Yielded(th, th.pc.k) else th.state == Running)
  }

  /** A thread's request, its buffer and the ring tell the same story. */
  predicate DiskOk(s: Sys, t: nat)
    requires t < |s.threads|
  {
    var th := s.threads[t];
    HasRequest(th.pc) ==>
      var (b, h) := Request(th.pc);
      && b < |s.bufs| && h in s.ring.chains && s.ring.chains[h].buf == b
      && (var buf, phase := s.bufs[b], s.ring.chains[h].phase;
          match th.pc
          case RwPosted(_, _) => buf == Buf(true, []) && phase == Posted
          case RwPublished(_, _) => buf == Buf(true, []) && phase in {Queued, InDevice, Used}
          case RwWait(_, _) => buf == Buf(true, []) && phase in {Queued, InDevice, Used}
          case RwReclaim(_, _) => buf == Buf(false, []) && phase == Taken
          case Back(_) => buf == Buf(false, []) && phase == Taken
          case Resumed(_) => buf == Buf(false, []) && phase == Taken
          case _ =>
            if th.state == Sleeping then buf == Buf(true, [t]) && phase in {Queued, InDevice, Used}
            else buf == Buf(false, []) && phase == Taken)
  }

  /** Two threads never share a request or a buffer. */
  predicate OwnRequest(s: Sys, t: nat, u: nat)
    requires t < |s.threads| && u < |s.threads|
  {
    var (p, q) := (s.threads[t].pc, s.threads[u].pc);
    t != u && HasRequest(p) && HasRequest(q) ==>
      Request(p).0 != Request(q).0 && Request(p).1 != Request(q).1
  }

  predicate Wants(s: Sys, t: nat, b: nat)
    requires t < |s.threads|
  {
    HasRequest(s.threads[t].pc) && Request(s.threads[t].pc).0 == b
  }

  /** A buffer no thread has a request for is neither busy nor waited on. */
  ghost predicate BufOk(s: Sys, b: nat)
    requires b < |s.bufs|
  {
    s.bufs[b] == Buf(false, []) || exists t: nat :: t < |s.threads| && Wants(s, t, b)
  }

  ghost predicate ChainOwned(s: Sys, h: nat) {
    exists t: nat :: t < |s.threads| && HasRequest(s.threads[t].pc) && Request(s.threads[t].pc).1 == h
  }

  /** The thread that holds disk.lock for a new request has no other. */
  predicate LockedBuf(s: Sys)
  {
    0 <= s.current < |s.threads| && s.threads[s.current].pc.RwLocked? ==>
      var b := s.threads[s.current].pc.b;
      b < |s.bufs| && s.bufs[b] == Buf(false, []) && forall t: nat | t < |s.threads| :: !Wants(s, t, b)
  }

  /** Who runs, who holds which lock, and how deep the nesting is. */
  ghost predicate ModeInv(s: Sys) {
    && -1 <= s.current < |s.threads|
    && (s.current == -1 ==> s.cpu.push == 0 && s.cpu.sie)
    && (s.current >= 0 ==> Active(s.threads[s.current], s.cpu))
    && (s.diskLock <==> s.current >= 0 && HoldsDiskLock(s.threads[s.current].pc))
    && (forall t: nat {:trigger s.threads[t]} | t < |s.threads| && t != s.current :: Idle(s.threads[t]))
  }

  /** Which thread waits for which request and buffer. */
  ghost predicate LinkInv(s: Sys) {
    && (forall t: nat {:trigger DiskOk(s, t)} | t < |s.threads| :: DiskOk(s, t))
    && (forall t: nat, u: nat {:trigger OwnRequest(s, t, u)} | t < |s.threads| && u < |s.threads| ::
        OwnRequest(s, t, u))
    && (forall b: nat {:trigger BufOk(s, b)} | b < |s.bufs| :: BufOk(s, b))
    && (forall h {:trigger ChainOwned(s, h)} | h in s.ring.chains :: ChainOwned(s, h))
    && LockedBuf(s)
  }

  ghost predicate SysInv(s: Sys) {
    Inv(s.ring) && ModeInv(s) && LinkInv(s)
  }

  /* ---- steps of the running thread ---- */

  datatype Event =
    | EnterUser                          // entry_to_user
    | UserTrap                           // usertrap up to its push
    | TrapReturn                         // return_to_user
    | TrapYield(irq: bool)               // timer or disk interrupt in user mode
    | TrapExit(woken: set<nat>)          // sys_exit
    | TrapWait                           // the blocking part of sys_wait
    | TrapFork(child: nat)               // sys_fork
    | RwStart(b: nat, req: BlkReq)       // virtio_disk_rw
    | RwPost
    | RwPublish
    | RwUnlock
    | RwSleep
    | SchedUnlock                        // sched
    | SchedSwitch
    | Dispatch(t: nat)                   // one round of scheduler_loop
    | SchedReturn
    | ResumeTrap
    | ResumeChild
    | ResumeDisk
    | RwFinish
    | DevConsume
    | DevComplete(h: nat)
    | KernelIntr                         // strap_handler

  predicate At(s: Sys) { 0 <= s.current < |s.threads| }

  function Cur(s: Sys): Thread
    requires At(s)
  {
    s.threads[s.current]
  }

  /** The current thread moves on. */
  function Go(s: Sys, th: Thread, cpu: CpuState): Sys
    requires At(s)
  {
    s.(threads := s.threads[s.current := th], cpu := cpu)
  }

  /** `awake_wait_queue` with `awake`: a node whose thread no longer sleeps on
      this queue is only dropped. */
  function AwakeAll(threads: seq<Thread>, queue: seq<nat>, b: nat): (r: seq<Thread>)
    ensures |r| == |threads|
    decreases |queue|
  {
    if queue == [] then threads
    else
      var t := queue[0];
      var woken := if t < |threads| && threads[t].waiting == OnBuf(b) && threads[t].state == Sleeping
                   then threads[t := threads[t].(state := Ready)] else threads;
      AwakeAll(woken, queue[1..], b)
  }

  /** One round of the loop in `virtio_disk_intr`. */
  function HandleOne(s: Sys): Sys
    requires Sized(s.ring)
  {
    var h := s.ring.usedRing[s.ring.seen % NUM];
    if s.ring.seen != s.ring.usedIdx && h in s.ring.chains && s.ring.chains[h].buf < |s.bufs| then
      var b := s.ring.chains[h].buf;
      s.(ring := Take(s.ring), threads := AwakeAll(s.threads, s.bufs[b].queue, b),
         bufs := s.bufs[b := Buf(false, [])])
    else s
  }

  function WakeWaiters(threads: seq<Thread>, woken: set<nat>): seq<Thread> {
    seq(|threads|, i requires 0 <= i < |threads| =>
      if i in woken && threads[i].state == Sleeping && threads[i].waiting == OnChild
      then threads[i].(state := Ready) else threads[i])
  }

  /** When the code at hand performs the step. */
  predicate CanStep(s: Sys, e: Event) {
    match e
    case EnterUser => At(s) && Cur(s).pc.Fresh?
    case UserTrap => At(s) && Cur(s).pc.User?
    case TrapReturn => At(s) && Cur(s).pc.Trap?
    case TrapYield(_) => At(s) && Cur(s).pc.Trap?
    case TrapExit(_) => At(s) && Cur(s).pc.Trap?
    case TrapWait => At(s) && Cur(s).pc.Trap?
    case TrapFork(n) => At(s) && Cur(s).pc.Trap? && n < |s.threads| && s.threads[n].state == Unused
    case RwStart(b, _) => At(s) && Cur(s).pc.Trap? && !s.diskLock && b < |s.bufs|
    case RwPost => At(s) && Cur(s).pc.RwLocked? && CanPost(s.ring)
    case RwPublish => At(s) && Cur(s).pc.RwPosted?
    case RwUnlock => At(s) && Cur(s).pc.RwPublished?
    case RwSleep => At(s) && Cur(s).pc.RwWait?
    case SchedUnlock => At(s) && Cur(s).pc.Calling?
    case SchedSwitch => At(s) && Cur(s).pc.Unlocked?
    case Dispatch(t) => s.current == -1 && t < |s.threads| && !s.threads[t].lock
    case SchedReturn => At(s) && Cur(s).pc.Back?
    case ResumeTrap => At(s) && Cur(s).pc == Resumed(KTrap)
    case ResumeChild => At(s) && Cur(s).pc == Resumed(KChild)
    case ResumeDisk =>
      // while (b->disk == 1); then acquire_spinlock
      At(s) && Cur(s).pc.Resumed? && Cur(s).pc.k.KDisk? && Cur(s).pc.k.b < |s.bufs|
      && !s.bufs[Cur(s).pc.k.b].disk && !s.diskLock
    case RwFinish => At(s) && Cur(s).pc.RwReclaim?
    case DevConsume => s.ring.devSeen != s.ring.availIdx
    case DevComplete(h) => h in s.ring.chains && s.ring.chains[h].phase == InDevice
    case KernelIntr => s.cpu.push == 0 && s.cpu.sie && (s.current == -1 || (At(s) && Cur(s).pc.Unlocked?))
  }

  /** What the effect of a step presumes: indices in range, no pop at count 0, a
      ring in order for the handler. It follows from the invariant. */
  ghost predicate Presumed(s: Sys, e: Event)
    requires CanStep(s, e)
  {
    match e
    case TrapReturn => s.cpu.push > 0
    case TrapYield(irq) => irq ==> Inv(s.ring)
    case RwPost => Sized(s.ring) && Cur(s).pc.b < |s.bufs|
    case RwPublish => Cur(s).pc.h in s.ring.chains
    case RwUnlock => s.cpu.push > 0
    case RwSleep => Cur(s).pc.b < |s.bufs|
    case SchedUnlock => s.cpu.push >= 2
    case ResumeTrap => s.cpu.push > 0
    case RwFinish => s.cpu.push > 0 && Sized(s.ring) && Cur(s).pc.h in s.ring.chains && Placed(s.ring, Cur(s).pc.h)
    case DevConsume => Sized(s.ring)
    case DevComplete(_) => Sized(s.ring)
    case KernelIntr => Inv(s.ring)
    case _ => true
  }

  ghost predicate CanDo(s: Sys, e: Event) { CanStep(s, e) && Presumed(s, e) }

  /** A request for a buffer that no other thread has a request for. The code does
      not see to it: two threads that miss on the same block ask for it twice. */
  predicate Guarded(s: Sys, e: Event) {
    e.RwStart? ==> forall t: nat | t < |s.threads| :: !Wants(s, t, e.b)
  }

  /** The interrupt handler: `virtio_disk_intr` until nothing is reported. */
  ghost function Handle(s: Sys): Sys
    requires Inv(s.ring)
    decreases s.ring.u - s.ring.t
  {
    TakeInv(s.ring);
    var h := s.ring.usedRing[s.ring.seen % NUM];
    if s.ring.seen == s.ring.usedIdx || s.ring.chains[h].buf >= |s.bufs| then s
    else Handle(HandleOne(s))
  }

  /** `entry_to_user`, whose assertion is that the nesting count is 1. */
  function ToUser(s: Sys): Sys
    requires At(s)
  {
    Go(s, Cur(s).(pc := User), s.cpu)
  }

  function UserTrapStep(s: Sys): Sys
    requires At(s)
  {
    Go(s, Cur(s).(pc := Trap), Push(s.cpu.(sie := false)))
  }

  /** `intr_pop` and `entry_to_user`. */
  function PopToUser(s: Sys): Sys
    requires At(s) && s.cpu.push > 0
  {
    ToUser(s.(cpu := Pop(s.cpu)))
  }

  function YieldStep(s: Sys): Sys
    requires At(s)
  {
    Go(s, Cur(s).(state := Ready, pc := Calling(KTrap)), s.cpu)
  }

  function ExitStep(s: Sys, woken: set<nat>): Sys
    requires At(s)
  {
    var s1 := s.(threads := WakeWaiters(s.threads, woken));
    Go(s1, Cur(s1).(state := Unused, pc := Calling(KDead)), s.cpu)
  }

  function WaitStep(s: Sys): Sys
    requires At(s)
  {
    Go(s, Cur(s).(state := Sleeping, waiting := OnChild, pc := Calling(KChild)), s.cpu)
  }

  function ForkStep(s: Sys, child: nat): Sys
    requires child < |s.threads|
  {
    s.(threads := s.threads[child := Thread(Ready, false, NoWait, Fresh)])
  }

  function RwStartStep(s: Sys, b: nat, req: BlkReq): Sys
    requires At(s)
  {
    Go(s, Cur(s).(pc := RwLocked(b, req)), Push(s.cpu)).(diskLock := true)
  }

  function RwPostStep(s: Sys): Sys
    requires At(s) && Cur(s).pc.RwLocked? && Sized(s.ring) && Cur(s).pc.b < |s.bufs|
  {
    var pc := Cur(s).pc;
    Go(s, Cur(s).(pc := RwPosted(pc.b, Three(s.ring.free).0)), s.cpu)
      .(ring := Post(s.ring, pc.b, pc.req), bufs := s.bufs[pc.b := s.bufs[pc.b].(disk := true)])
  }

  function RwPublishStep(s: Sys): Sys
    requires At(s) && Cur(s).pc.RwPosted? && Cur(s).pc.h in s.ring.chains
  {
    var pc := Cur(s).pc;
    Go(s, Cur(s).(pc := RwPublished(pc.b, pc.h)), s.cpu).(ring := Publish(s.ring, pc.h))
  }

  function RwUnlockStep(s: Sys): Sys
    requires At(s) && Cur(s).pc.RwPublished? && s.cpu.push > 0
  {
    Go(s, Cur(s).(pc := RwWait(Cur(s).pc.b, Cur(s).pc.h)), Pop(s.cpu)).(diskLock := false)
  }

  /** waiting, T_SLEEPING and `wait_queue_push_back`. */
  function RwSleepStep(s: Sys): Sys
    requires At(s) && Cur(s).pc.RwWait? && Cur(s).pc.b < |s.bufs|
  {
    var pc := Cur(s).pc;
    Go(s, Cur(s).(state := Sleeping, waiting := OnBuf(pc.b), pc := Calling(KDisk(pc.b, pc.h))), s.cpu)
      .(bufs := s.bufs[pc.b := s.bufs[pc.b].(queue := s.bufs[pc.b].queue + [s.current])])
  }

  /** `sched` up to its check that the nesting count is 0. */
  function SchedUnlockStep(s: Sys): Sys
    requires At(s) && Cur(s).pc.Calling? && s.cpu.push >= 2
  {
    Go(s, Cur(s).(lock := false, pc := Unlocked(Cur(s).pc.k)), Pop(Pop(s.cpu)))
  }

  function SchedSwitchStep(s: Sys): Sys
    requires At(s) && Cur(s).pc.Unlocked?
  {
    Go(s, Cur(s).(pc := Parked(Cur(s).pc.k)), s.cpu).(current := -1)
  }

  function DispatchStep(s: Sys, t: nat): Sys
    requires t < |s.threads|
  {
    var th := s.threads[t];
    if th.state == Ready then
      s.(cpu := Push(s.cpu), current := t,
         threads := s.threads[t := th.(state := Running, lock := true,
                                       pc := if th.pc.Parked? then Back(th.pc.k) else th.pc)])
    else s.(cpu := Pop(Push(s.cpu)))
  }

  function SchedReturnStep(s: Sys): Sys
    requires At(s) && Cur(s).pc.Back?
  {
    Go(s, Cur(s).(pc := Resumed(Cur(s).pc.k)), Push(s.cpu))
  }

  function ResumeChildStep(s: Sys): Sys
    requires At(s)
  {
    Go(s, Cur(s).(pc := Trap), s.cpu)
  }

  function ResumeDiskStep(s: Sys): Sys
    requires At(s) && Cur(s).pc.Resumed? && Cur(s).pc.k.KDisk?
  {
    Go(s, Cur(s).(pc := RwReclaim(Cur(s).pc.k.b, Cur(s).pc.k.h)), Push(s.cpu)).(diskLock := true)
  }

  function RwFinishStep(s: Sys): Sys
    requires At(s) && Cur(s).pc.RwReclaim? && s.cpu.push > 0 && Sized(s.ring)
    requires Cur(s).pc.h in s.ring.chains && Placed(s.ring, Cur(s).pc.h)
  {
    Go(s, Cur(s).(pc := Trap), Pop(s.cpu)).(ring := Reclaim(s.ring, Cur(s).pc.h), diskLock := false)
  }

  function IntrReturn(s: Sys): Sys { s.(cpu := s.cpu.(status := false)) }

  ghost function Effect(s: Sys, e: Event): Sys
    requires CanDo(s, e)
  {
    match e
    case EnterUser => ToUser(s)
    case UserTrap => UserTrapStep(s)
    case TrapReturn => PopToUser(s)
    case TrapYield(irq) => YieldAfter(s, irq)
    case TrapExit(woken) => ExitStep(s, woken)
    case TrapWait => WaitStep(s)
    case TrapFork(n) => ForkStep(s, n)
    case RwStart(b, req) => RwStartStep(s, b, req)
    case RwPost => RwPostStep(s)
    case RwPublish => RwPublishStep(s)
    case RwUnlock => RwUnlockStep(s)
    case RwSleep => RwSleepStep(s)
    case SchedUnlock => SchedUnlockStep(s)
    case SchedSwitch => SchedSwitchStep(s)
    case Dispatch(t) => DispatchStep(s, t)
    case SchedReturn => SchedReturnStep(s)
    case ResumeTrap => PopToUser(s)
    case ResumeChild => ResumeChildStep(s)
    case ResumeDisk => ResumeDiskStep(s)
    case RwFinish => RwFinishStep(s)
    case DevConsume => s.(ring := Consume(s.ring))
    case DevComplete(h) => s.(ring := Complete(s.ring, h))
    case KernelIntr => IntrReturn(Handle(s))
  }

  /** A timer interrupt, or a disk interrupt handled first. */
  ghost function YieldAfter(s: Sys, irq: bool): Sys
    requires At(s) && (irq ==> Inv(s.ring))
  {
    if irq then HandleKeeps(s); YieldStep(Handle(s)) else YieldStep(s)
  }

  lemma {:induction false} HandleKeeps(s: Sys)
    requires Inv(s.ring)
    ensures Handle(s).current == s.current && |Handle(s).threads| == |s.threads|
    decreases s.ring.u - s.ring.t
  {
    TakeInv(s.ring);
    var h := s.ring.usedRing[s.ring.seen % NUM];
    if !(s.ring.seen == s.ring.usedIdx || s.ring.chains[h].buf >= |s.bufs|) { HandleKeeps(HandleOne(s)); }
  }
}
