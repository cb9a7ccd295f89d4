/** Whole runs of the hart: the scheduler, the threads, the device and its
    interrupts in any order. */
module KernelRuns {
  import opened Interrupts
  import opened VirtioRing
  import opened VirtioLaws
  import opened Kernel
  import opened KernelLaws

  /** After `main`: the scheduler runs, thread 0 is ready, nothing is cached. */
  function Boot(threads: nat, bufs: nat): Sys
    requires threads > 0
  {
    Sys(CpuState(0, false, true), -1,
        seq(threads, i => if i == 0 then Thread(Ready, false, NoWait, Fresh)
                          else Thread(Unused, false, NoWait, Parked(KDead))),
        false, seq(bufs, _ => Buf(false, [])), Init())
  }

  lemma BootOk(threads: nat, bufs: nat)
    requires threads > 0
    ensures SysInv(Boot(threads, bufs))
  {
    InitInv();
  }

  /* ---- every step ---- */

  /** A step that the code performs in a state within the invariant has the effect
      the model gives. */
  lemma PresumedHolds(s: Sys, e: Event)
    requires SysInv(s) && CanStep(s, e)
    ensures CanDo(s, e)
  {
    RingSized(s);
    hide Structure, Queues, LinkInv;
    if At(s) { IdleOrCurrent(s, s.current); }
    match e {
      case RwPost => RwBuffer(s);
      case RwPublish => RwPublishOk(s);
      case RwSleep => RwBuffer(s);
      case RwFinish => RwFinishOk(s);
      case _ =>
    }
  }

  lemma RwBuffer(s: Sys)
    requires SysInv(s) && At(s) && (Cur(s).pc.RwLocked? || Cur(s).pc.RwWait?)
    ensures Cur(s).pc.b < |s.bufs| && Sized(s.ring)
  {
    assert DiskOk(s, s.current);
  }

  /** Submitting a request and waiting for it. */
  predicate IsDisk(e: Event) {
    e.RwStart? || e.RwPost? || e.RwPublish? || e.RwUnlock? || e.RwSleep? || e.ResumeDisk? || e.RwFinish?
  }

  /** Giving up the hart and getting it back. */
  predicate IsSched(e: Event) {
    e.SchedUnlock? || e.SchedSwitch? || e.Dispatch? || e.SchedReturn? || e.ResumeTrap? || e.ResumeChild?
  }

  lemma DiskStepOk(s: Sys, e: Event)
    requires SysInv(s) && CanDo(s, e) && Guarded(s, e) && IsDisk(e)
    ensures SysInv(Effect(s, e))
  {
    hide SysInv, RwStartStep, RwPostStep, RwPublishStep, RwUnlockStep, RwSleepStep, ResumeDiskStep, RwFinishStep, Inv,
         Placed, CanPost;
    match e {
      case RwStart(b, req) => RwStartOk(s, b, req);
      case RwPost => RwPostOk(s);
      case RwPublish => RwPublishOk(s);
      case RwUnlock => RwUnlockOk(s);
      case RwSleep => RwSleepOk(s);
      case ResumeDisk => ResumeDiskOk(s);
      case RwFinish => RwFinishOk(s);
    }
  }

  lemma SchedStepOk(s: Sys, e: Event)
    requires SysInv(s) && CanDo(s, e) && IsSched(e)
    ensures SysInv(Effect(s, e))
  {
    hide SysInv, SchedUnlockStep, SchedSwitchStep, DispatchStep, SchedReturnStep, PopToUser, ResumeChildStep, Inv,
         Placed;
    match e {
      case SchedUnlock => SchedUnlockOk(s);
      case SchedSwitch => SchedSwitchOk(s);
      case Dispatch(t) => DispatchOk(s, t);
      case SchedReturn => SchedReturnOk(s);
      case ResumeTrap => PopToUserOk(s);
      case ResumeChild => ResumeChildOk(s);
    }
  }

  lemma InterruptOk(s: Sys)
    requires SysInv(s) && CanDo(s, KernelIntr)
    ensures SysInv(IntrReturn(Handle(s)))
  {
    hide SysInv, Handle, IntrReturn, Inv;
    HandleOk(s);
    IntrReturnOk(Handle(s));
  }

  lemma YieldAfterOk(s: Sys, irq: bool)
    requires SysInv(s) && At(s) && Cur(s).pc.Trap? && (irq ==> Inv(s.ring))
    ensures SysInv(YieldAfter(s, irq))
  {
    hide SysInv, Handle, YieldStep, Inv;
    if irq {
      HandleOk(s);
      YieldOk(Handle(s));
    } else {
      YieldOk(s);
    }
  }

  /** Every step keeps the invariant, a request if it is guarded. */
  lemma StepOk(s: Sys, e: Event)
    requires SysInv(s) && CanDo(s, e) && Guarded(s, e)
    ensures SysInv(Effect(s, e))
  {
    hide SysInv, ToUser, UserTrapStep, PopToUser, YieldAfter, ExitStep, WaitStep, ForkStep, Inv, Placed, Consume,
         Complete,
         Handle, IntrReturn;
    match e {
      case EnterUser => ToUserOk(s);
      case UserTrap => UserTrapOk(s);
      case TrapReturn => PopToUserOk(s);
      case TrapYield(irq) => YieldAfterOk(s, irq);
      case TrapExit(woken) => ExitOk(s, woken);
      case TrapWait => WaitOk(s);
      case TrapFork(n) => ForkOk(s, n);
      case DevConsume => DevConsumeOk(s);
      case DevComplete(h) => DevCompleteOk(s, h);
      case KernelIntr => InterruptOk(s);
      case _ => if IsSched(e) { SchedStepOk(s, e); } else { DiskStepOk(s, e); }
    }
  }

  /* ---- runs ---- */

  /** An event that cannot happen now changes nothing. */
  ghost function Perform(s: Sys, e: Event): Sys { if CanDo(s, e) then Effect(s, e) else s }

  ghost function After(s: Sys, events: seq<Event>): Sys
    decreases |events|
  {
    if events == [] then s else After(Perform(s, events[0]), events[1..])
  }

  /** No buffer is asked for while another thread has a request for it. */
  ghost predicate AllGuarded(s: Sys, events: seq<Event>)
    decreases |events|
  {
    events == [] || ((CanDo(s, events[0]) ==> Guarded(s, events[0])) && AllGuarded(Perform(s, events[0]), events[1..]))
  }

  lemma IdleOrCurrent(s: Sys, t: nat)
    requires ModeInv(s) && t < |s.threads|
    ensures if t == s.current then Active(s.threads[t], s.cpu) else Idle(s.threads[t])
  {
  }

  /** At most one thread is running; it is the one the current coroutine names,
      and it holds its own lock; every other lock is free. */
  ghost predicate OneRunning(s: Sys) {
    && (forall t: nat | t < |s.threads| ::
          && (s.threads[t].state == Running ==> t == s.current && s.threads[t].lock)
          && (s.threads[t].lock ==> t == s.current))
    && (s.current == -1 ==> !s.diskLock)
  }

  /** The nesting count is 0 in the scheduler, 1 at entry_to_user and after a
      dispatch, 2 in usertrap after its push, 3 under disk.lock, and 0 with
      interrupts on once sched has let go. */
  predicate NestingCounts(s: Sys) {
    && (s.current == -1 ==> s.cpu.push == 0 && s.cpu.sie)
    && (s.diskLock ==> s.cpu.push == 3 && !s.cpu.sie)
    && (At(s) ==>
          && (Cur(s).pc.Fresh? || Cur(s).pc.Back? || Cur(s).pc.User? ==> s.cpu.push == 1)
          && (Cur(s).pc.Trap? ==> s.cpu.push == 2 && !s.cpu.sie)
          && (Cur(s).pc.Unlocked? ==> s.cpu.push == 0 && s.cpu.sie))
  }

  lemma ModeIsSafe(s: Sys)
    requires ModeInv(s)
    ensures OneRunning(s) && NestingCounts(s)
  {
    forall t: nat | t < |s.threads|
      ensures s.threads[t].state == Running ==> t == s.current && s.threads[t].lock
      ensures s.threads[t].lock ==> t == s.current
    {
      IdleOrCurrent(s, t);
    }
  }

  /** A thread asleep on b has its own request for b on the way and is the one
      node of b's queue. */
  ghost predicate OnTheWay(s: Sys, t: nat, b: nat) {
    && t < |s.threads| && b < |s.bufs| && s.bufs[b] == Buf(true, [t])
    && HasRequest(s.threads[t].pc) && Request(s.threads[t].pc).0 == b
    && (var h := Request(s.threads[t].pc).1;
        && h in s.ring.chains && s.ring.chains[h].buf == b
        && s.ring.chains[h].phase in {Queued, InDevice, Used})
  }

  ghost predicate NoLostWakeup(s: Sys) {
    forall t: nat, b: nat {:trigger OnTheWay(s, t, b)} |
      t < |s.threads| && s.threads[t].state == Sleeping && s.threads[t].waiting == OnBuf(b) :: OnTheWay(s, t, b)
  }

  lemma AsleepIsOnTheWay(s: Sys, t: nat, b: nat)
    requires ModeInv(s) && LinkInv(s)
    requires t < |s.threads| && s.threads[t].state == Sleeping && s.threads[t].waiting == OnBuf(b)
    ensures OnTheWay(s, t, b)
  {
    assert DiskOk(s, t);
    IdleOrCurrent(s, t);
  }

  /** The locks the handler takes for the next completion are free. */
  ghost predicate HandlerLocksFree(s: Sys)
    requires Sized(s.ring)
  {
    && !s.diskLock
    && (var h := s.ring.usedRing[s.ring.seen % NUM];
        && h in s.ring.chains && s.ring.chains[h].buf < |s.bufs|
        && (forall u | u in s.bufs[s.ring.chains[h].buf].queue ::
              u < |s.threads| && !s.threads[u].lock && s.threads[u].state == Sleeping))
  }

  /** Whenever an interrupt can be taken, its handler acquires only free locks. */
  ghost predicate InterruptsNeverSpin(s: Sys)
    requires Sized(s.ring)
  {
    && (CanStep(s, KernelIntr) ==> Interruptible(s))
    && (Interruptible(s) && s.ring.seen != s.ring.usedIdx ==> HandlerLocksFree(s))
  }

  lemma LocksFreeIn(s: Sys)
    requires SysInv(s)
    ensures InterruptsNeverSpin(s)
  {
    if Interruptible(s) && s.ring.seen != s.ring.usedIdx {
      var t := HandlerNeverSpins(s);
      assert forall u | u in [t] :: u == t;
    }
  }

  /** `virtio_disk_rw` frees its chain only after the handler has seen it. */
  predicate ReclaimsTaken(s: Sys) {
    At(s) && Cur(s).pc.RwReclaim? ==>
      Cur(s).pc.h in s.ring.chains && s.ring.chains[Cur(s).pc.h].phase == Taken
  }

  /** A thread back from its disk sleep, with interrupts off, does not find the
      buffer busy. */
  predicate NeverSpinsOnDisk(s: Sys) {
    At(s) && Cur(s).pc.Resumed? && Cur(s).pc.k.KDisk? ==>
      Cur(s).pc.k.b < |s.bufs| && !s.bufs[Cur(s).pc.k.b].disk
  }

  ghost predicate Safe(s: Sys) {
    && Sized(s.ring) && OneRunning(s) && NestingCounts(s) && NoLostWakeup(s) && InterruptsNeverSpin(s)
    && ReclaimsTaken(s) && NeverSpinsOnDisk(s)
  }

  lemma InvIsSafe(s: Sys)
    requires SysInv(s)
    ensures Safe(s)
  {
    RingSized(s);
    hide Structure, Queues;
    ModeIsSafe(s);
    LocksFreeIn(s);
    forall t: nat, b: nat | t < |s.threads| && s.threads[t].state == Sleeping && s.threads[t].waiting == OnBuf(b)
      ensures OnTheWay(s, t, b)
    {
      AsleepIsOnTheWay(s, t, b);
    }
    if At(s) { assert DiskOk(s, s.current); }
  }

  /** The state after every event is safe. */
  ghost predicate SafeThroughout(s: Sys, events: seq<Event>)
    decreases |events|
  {
    Safe(s) && (events == [] || SafeThroughout(Perform(s, events[0]), events[1..]))
  }

  lemma {:induction false} GuardedIsSafe(s: Sys, events: seq<Event>)
    requires SysInv(s) && AllGuarded(s, events)
    ensures SafeThroughout(s, events) && SysInv(After(s, events))
    decreases |events|
  {
    hide SysInv, Safe, CanDo, Guarded, Effect;
    InvIsSafe(s);
    if events != [] {
      if CanDo(s, events[0]) { StepOk(s, events[0]); }
      GuardedIsSafe(Perform(s, events[0]), events[1..]);
    }
  }

  /** Every state of every run is safe as long as no thread asks for a buffer that
      another one is waiting for. */
  lemma EveryRunIsSafe(threads: nat, bufs: nat, events: seq<Event>)
    requires threads > 0 && AllGuarded(Boot(threads, bufs), events)
    ensures SafeThroughout(Boot(threads, bufs), events)
  {
    BootOk(threads, bufs);
    GuardedIsSafe(Boot(threads, bufs), events);
  }
}
