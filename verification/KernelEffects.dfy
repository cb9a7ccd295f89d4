/** What traps, interrupts, exit and wait do to every thread of the hart, said of
    the steps of a run and not of the functions they are made of. */
module KernelEffects {
  import opened Interrupts
  import opened VirtioRing
  import opened VirtioLaws
  import opened Kernel
  import opened KernelLaws
  import opened KernelRuns
  import opened KernelHazards

  /* ---- completions ---- */

  /** The device has reported the thread's request. */
  predicate Reported(s: Sys, t: nat)
    requires t < |s.threads|
  {
    var pc := s.threads[t].pc;
    HasRequest(pc) && Request(pc).1 in s.ring.chains && s.ring.chains[Request(pc).1].phase == Used
  }

  /** A reported request was for buffer b. */
  ghost predicate Filled(s: Sys, b: nat) {
    exists h :: h in s.ring.chains && s.ring.chains[h].phase == Used && s.ring.chains[h].buf == b
  }

  predicate ChainTaken(s: Sys, s': Sys, h: nat)
    requires h in s.ring.chains
  {
    var c := s.ring.chains[h];
    h in s'.ring.chains && s'.ring.chains[h] == if c.phase == Used then c.(phase := Taken) else c
  }

  predicate ThreadWoken(s: Sys, s': Sys, t: nat)
    requires t < |s.threads| == |s'.threads|
  {
    s'.threads[t] == if Reported(s, t) then s.threads[t].(state := Ready) else s.threads[t]
  }

  ghost predicate BufferFreed(s: Sys, s': Sys, b: nat)
    requires b < |s.bufs| == |s'.bufs|
  {
    s'.bufs[b] == if Filled(s, b) then Buf(false, []) else s.bufs[b]
  }

  /** Every reported completion has been taken, its thread, c apart, made ready and
      its buffer released; no other chain, thread or buffer has changed. */
  ghost predicate Delivered(s: Sys, s': Sys, c: int) {
    && |s'.threads| == |s.threads| && |s'.bufs| == |s.bufs| && s'.ring.chains.Keys == s.ring.chains.Keys
    && s'.ring.seen == s.ring.usedIdx == s'.ring.usedIdx
    && (forall h {:trigger ChainTaken(s, s', h)} | h in s.ring.chains :: ChainTaken(s, s', h))
    && (forall t: nat {:trigger ThreadWoken(s, s', t)} | t < |s.threads| && t != c :: ThreadWoken(s, s', t))
    && (forall b: nat {:trigger BufferFreed(s, s', b)} | b < |s.bufs| :: BufferFreed(s, s', b))
  }

  /** One completion, of chain h for buffer b, then the others. */
  lemma DeliverOne(s: Sys, s1: Sys, s': Sys, t: nat, b: nat, h: nat)
    requires SysInv(s) && t < |s.threads| && b < |s.bufs| && h in s.ring.chains
    requires s.ring.chains[h].phase == Used && s.ring.chains[h].buf == b
    requires HasRequest(s.threads[t].pc) && Request(s.threads[t].pc) == (b, h)
    requires s1.threads == s.threads[t := s.threads[t].(state := Ready)] && s1.bufs == s.bufs[b := Buf(false, [])]
    requires s1.ring.chains == s.ring.chains[h := s.ring.chains[h].(phase := Taken)]
    requires s1.ring.usedIdx == s.ring.usedIdx && Delivered(s1, s', -1)
    ensures Delivered(s, s', -1)
  {
    hide Inv, ModeInv;
    forall g | g in s.ring.chains
      ensures ChainTaken(s, s', g)
    {
      assert ChainTaken(s1, s', g);
    }
    forall u: nat | u < |s.threads|
      ensures ThreadWoken(s, s', u)
    {
      assert ThreadWoken(s1, s', u) && OwnRequest(s, t, u);
    }
    forall d: nat | d < |s.bufs|
      ensures BufferFreed(s, s', d)
    {
      assert BufferFreed(s1, s', d);
      if Filled(s, d) && d != b {
        var g :| g in s.ring.chains && s.ring.chains[g].phase == Used && s.ring.chains[g].buf == d;
        assert s1.ring.chains[g] == s.ring.chains[g];
      }
    }
  }

  lemma HandlesOne(s: Sys) returns (t: nat, b: nat, h: nat)
    requires SysInv(s) && Interruptible(s) && s.ring.seen != s.ring.usedIdx
    ensures t < |s.threads| && b < |s.bufs| && h in s.ring.chains
    ensures s.ring.chains[h].phase == Used && s.ring.chains[h].buf == b
    ensures HasRequest(s.threads[t].pc) && Request(s.threads[t].pc) == (b, h)
    ensures var s1 := HandleOne(s);
            && SysInv(s1) && Interruptible(s1) && Handle(s) == Handle(s1)
            && s1 == s.(threads := s1.threads, bufs := s1.bufs, ring := s1.ring)
            && s1.threads == s.threads[t := s.threads[t].(state := Ready)] && s1.bufs == s.bufs[b := Buf(false, [])]
            && s1.ring.chains == s.ring.chains[h := s.ring.chains[h].(phase := Taken)]
            && s1.ring.usedIdx == s.ring.usedIdx && s1.ring.u - s1.ring.t < s.ring.u - s.ring.t
  {
    TakeInv(s.ring);
    t := HandlerNeverSpins(s);
    h := s.ring.usedRing[s.ring.seen % NUM];
    b := s.ring.chains[h].buf;
    AwakeOne(s.threads, t, b);
    hide SysInv, Inv;
    var u := HandleOneOk(s);
  }

  lemma NothingToDeliver(s: Sys)
    requires SysInv(s) && s.ring.seen == s.ring.usedIdx
    ensures Delivered(s, s, -1)
  {
    forall h | h in s.ring.chains
      ensures s.ring.chains[h].phase != Used
    {
      NothingReported(s.ring, h);
    }
  }

  lemma {:induction false} HandleDelivers(s: Sys)
    requires SysInv(s) && Interruptible(s)
    ensures var s' := Handle(s);
            Delivered(s, s', -1) && s' == s.(threads := s'.threads, bufs := s'.bufs, ring := s'.ring)
    decreases s.ring.u - s.ring.t
  {
    if s.ring.seen == s.ring.usedIdx {
      NothingToDeliver(s);
    } else {
      var t, b, h := HandlesOne(s);
      hide SysInv, Inv, Handle, Interruptible, HandleOne, Delivered;
      HandleDelivers(HandleOne(s));
      DeliverOne(s, HandleOne(s), Handle(s), t, b, h);
    }
  }

  /** No completion is left, and every thread that had one is ready, its buffer no
      longer busy. */
  lemma DeliveredToAll(s: Sys, s': Sys, c: int)
    requires SysInv(s) && Delivered(s, s', c)
    ensures forall h | h in s'.ring.chains :: s'.ring.chains[h].phase != Used
    ensures forall t: nat | t < |s.threads| && t != c && Reported(s, t) ::
              var b := Request(s.threads[t].pc).0;
              s'.threads[t].state == Ready && b < |s'.bufs| && !s'.bufs[b].disk
  {
    forall h | h in s'.ring.chains
      ensures s'.ring.chains[h].phase != Used
    {
      assert ChainTaken(s, s', h);
    }
    forall t: nat | t < |s.threads| && t != c && Reported(s, t)
      ensures var b := Request(s.threads[t].pc).0;
              s'.threads[t].state == Ready && b < |s'.bufs| && !s'.bufs[b].disk
    {
      assert DiskOk(s, t) && ThreadWoken(s, s', t);
      var (b, h) := Request(s.threads[t].pc);
      assert Filled(s, b) && BufferFreed(s, s', b);
    }
  }

  /** A disk interrupt out of user mode takes every reported completion, and the
      thread it met gives up the hart. */
  lemma DiskTrapDelivers(s: Sys)
    requires SysInv(s) && CanStep(s, TrapYield(true))
    ensures CanDo(s, TrapYield(true))
    ensures var s' := Perform(s, TrapYield(true));
            && Delivered(s, s', s.current) && s' == s.(threads := s'.threads, bufs := s'.bufs, ring := s'.ring)
            && Cur(s') == Cur(s).(state := Ready, pc := Calling(KTrap))
            && (forall h | h in s'.ring.chains :: s'.ring.chains[h].phase != Used)
            && forall t: nat | t < |s.threads| && Reported(s, t) ::
                 var b := Request(s.threads[t].pc).0;
                 s'.threads[t].state == Ready && b < |s'.bufs| && !s'.bufs[b].disk
  {
    PresumedHolds(s, TrapYield(true));
    HandleDelivers(s);
    var s1, s' := Handle(s), Perform(s, TrapYield(true));
    assert ThreadWoken(s, s1, s.current);
    hide SysInv, Inv, Handle;
    assert s' == YieldStep(s1);
    forall t: nat | t < |s.threads| && t != s.current
      ensures ThreadWoken(s, s', t)
    {
      assert ThreadWoken(s, s1, t);
    }
    KeptFrom(s, s1, s');
    DeliveredToAll(s, s', s.current);
  }

  lemma KeptFrom(s: Sys, s1: Sys, s': Sys)
    requires Delivered(s, s1, -1) && s'.bufs == s1.bufs && s'.ring == s1.ring
    ensures forall h {:trigger ChainTaken(s, s', h)} | h in s.ring.chains :: ChainTaken(s, s', h)
    ensures forall b: nat {:trigger BufferFreed(s, s', b)} | b < |s.bufs| :: BufferFreed(s, s', b)
  {
    forall h | h in s.ring.chains
      ensures ChainTaken(s, s', h)
    {
      assert ChainTaken(s, s1, h);
    }
    forall b: nat | b < |s.bufs|
      ensures BufferFreed(s, s', b)
    {
      assert BufferFreed(s, s1, b);
    }
  }

  /** So does one taken inside the kernel, which changes nothing of the thread it
      met. */
  lemma KernelIntrDelivers(s: Sys)
    requires SysInv(s) && CanStep(s, KernelIntr)
    ensures CanDo(s, KernelIntr)
    ensures var s' := Perform(s, KernelIntr);
            && Delivered(s, s', -1)
            && s' == s.(threads := s'.threads, bufs := s'.bufs, ring := s'.ring, cpu := s.cpu.(status := false))
            && (forall h | h in s'.ring.chains :: s'.ring.chains[h].phase != Used)
            && forall t: nat | t < |s.threads| && Reported(s, t) ::
                 var b := Request(s.threads[t].pc).0;
                 s'.threads[t].state == Ready && b < |s'.bufs| && !s'.bufs[b].disk
  {
    PresumedHolds(s, KernelIntr);
    HandleDelivers(s);
    var s1, s' := Handle(s), Perform(s, KernelIntr);
    hide SysInv, Inv, Handle;
    assert s' == IntrReturn(s1);
    forall t: nat | t < |s.threads|
      ensures ThreadWoken(s, s', t)
    {
      assert ThreadWoken(s, s1, t);
    }
    KeptFrom(s, s1, s');
    DeliveredToAll(s, s', -1);
  }

  /** A timer interrupt changes the thread it met and nothing else. */
  lemma TimerTrapYields(s: Sys)
    requires CanStep(s, TrapYield(false))
    ensures CanDo(s, TrapYield(false))
    ensures Perform(s, TrapYield(false))
         == s.(threads := s.threads[s.current := Cur(s).(state := Ready, pc := Calling(KTrap))])
  {
  }

  /* ---- exit and wait ---- */

  /** What the exit wakes: a thread named that sleeps for a child. */
  predicate WokenByExit(s: Sys, t: nat, woken: set<nat>)
    requires t < |s.threads|
  {
    t in woken && s.threads[t].state == Sleeping && s.threads[t].waiting == OnChild
  }

  lemma ExitWakes(s: Sys, woken: set<nat>)
    requires SysInv(s) && CanStep(s, TrapExit(woken))
    ensures CanDo(s, TrapExit(woken))
    ensures var s' := Perform(s, TrapExit(woken));
            && s' == s.(threads := s'.threads) && |s'.threads| == |s.threads|
            && Cur(s').state == Unused && Cur(s') == Cur(s).(state := Unused, pc := Calling(KDead))
            && forall t: nat | t < |s.threads| && t != s.current ::
                 s'.threads[t] == if WokenByExit(s, t, woken) then s.threads[t].(state := Ready) else s.threads[t]
  {
    IdleOrCurrent(s, s.current);
  }

  /** Parked by sys_wait. */
  predicate Waits(s: Sys, t: nat) {
    t < |s.threads| && t != s.current && s.threads[t].state == Sleeping && s.threads[t].waiting == OnChild
  }

  lemma {:induction false} AwakePasses(threads: seq<Thread>, queue: seq<nat>, b: nat, t: nat)
    requires t < |threads| && threads[t].waiting == OnChild
    ensures AwakeAll(threads, queue, b)[t] == threads[t]
    decreases |queue|
  {
    if queue != [] {
      var u := queue[0];
      var woken := if u < |threads| && threads[u].waiting == OnBuf(b) && threads[u].state == Sleeping
                   then threads[u := threads[u].(state := Ready)] else threads;
      AwakePasses(woken, queue[1..], b, t);
    }
  }

  lemma {:induction false} HandlePasses(s: Sys, t: nat)
    requires Inv(s.ring) && t < |s.threads| && s.threads[t].waiting == OnChild
    ensures |Handle(s).threads| == |s.threads| && Handle(s).threads[t] == s.threads[t] && Handle(s).current == s.current
    decreases s.ring.u - s.ring.t
  {
    TakeInv(s.ring);
    var h := s.ring.usedRing[s.ring.seen % NUM];
    if !(s.ring.seen == s.ring.usedIdx || s.ring.chains[h].buf >= |s.bufs|) {
      AwakePasses(s.threads, s.bufs[s.ring.chains[h].buf].queue, s.ring.chains[h].buf, t);
      hide Inv;
      HandlePasses(HandleOne(s), t);
    }
  }

  /** The event is an exit that names the thread. */
  ghost predicate Names(s: Sys, e: Event, t: nat) { CanDo(s, e) && e.TrapExit? && t in e.woken }

  /** Of all steps, exactly an exit that names it makes a waiting parent ready. */
  lemma WaiterStep(s: Sys, e: Event, t: nat)
    requires Waits(s, t)
    ensures var s' := Perform(s, e);
            && |s'.threads| == |s.threads| && t != s'.current
            && s'.threads[t] == if Names(s, e, t) then s.threads[t].(state := Ready) else s.threads[t]
  {
    if CanDo(s, e) && (e == TrapYield(true) || e == KernelIntr) {
      HandlePasses(s, t);
    }
    hide Handle, Inv, Placed, Post, Publish, Reclaim, Consume, Complete;
  }

  /** Some event of the run names the thread. */
  ghost predicate Called(s: Sys, events: seq<Event>, t: nat)
    decreases |events|
  {
    events != [] && (Names(s, events[0], t) || Called(Perform(s, events[0]), events[1..], t))
  }

  /** In some state of the run the thread can be dispatched. */
  ghost predicate EverReady(s: Sys, events: seq<Event>, t: nat)
    requires t < |s.threads|
    decreases |events|
  {
    s.threads[t].state == Ready
    || (events != [] && t < |Perform(s, events[0]).threads| && EverReady(Perform(s, events[0]), events[1..], t))
  }

  /** Over every run a parent parked by sys_wait becomes ready exactly when an exit
      names it, and stays as it is until then. */
  lemma {:induction false} ReadyIffCalled(s: Sys, t: nat, events: seq<Event>)
    requires Waits(s, t)
    ensures EverReady(s, events, t) <==> Called(s, events, t)
    ensures !Called(s, events, t) ==> Waits(After(s, events), t) && After(s, events).threads[t] == s.threads[t]
    decreases |events|
  {
    if events != [] {
      WaiterStep(s, events[0], t);
      hide Perform, Names;
      var s' := Perform(s, events[0]);
      if !Names(s, events[0], t) {
        ReadyIffCalled(s', t, events[1..]);
      } else {
        assert EverReady(s', events[1..], t);
      }
    }
  }

  /** The scheduler dispatches exactly the threads that are ready. */
  lemma DispatchIff(s: Sys, t: nat)
    requires SysInv(s) && s.current == -1 && t < |s.threads|
    ensures CanDo(s, Dispatch(t)) && (Perform(s, Dispatch(t)).current == t <==> s.threads[t].state == Ready)
  {
    IdleOrCurrent(s, t);
  }

  /* ---- giving up the hart and coming back ---- */

  const GIVE_UP: seq<Event> := [SchedUnlock, SchedSwitch]

  lemma GivesUp(s: Sys, k: Cont)
    requires At(s) && Cur(s).pc == Calling(k) && s.cpu == CpuState(2, true, false)
    ensures After(s, GIVE_UP)
         == s.(current := -1, cpu := CpuState(0, true, true),
               threads := s.threads[s.current := Cur(s).(lock := false, pc := Parked(k))])
  {
    hide After, AllGuarded;
    var s1 := Perform(s, SchedUnlock);
    assert s1 == s.(cpu := CpuState(0, true, true),
                    threads := s.threads[s.current := Cur(s).(lock := false, pc := Unlocked(k))]);
    SwitchRuns(s1, k);
    assert [SchedUnlock] + [SchedSwitch] == GIVE_UP && [SchedSwitch] + [] == [SchedSwitch];
    OneMore(s, SchedUnlock, [SchedSwitch]);
    OneMore(s1, SchedSwitch, []);
    Ended(Perform(s1, SchedSwitch));
  }

  lemma InTrap(s: Sys)
    requires SysInv(s) && At(s) && Cur(s).pc.Trap?
    ensures s.cpu.push == 2 && s.cpu == CpuState(2, true, false) && Cur(s).lock && Cur(s).state == Running
  {
    IdleOrCurrent(s, s.current);
  }

  /** sys_wait parks the thread. */
  lemma WaitParks(s: Sys)
    requires SysInv(s) && CanStep(s, TrapWait)
    ensures var s' := After(s, [TrapWait] + GIVE_UP);
            && s'.current == -1 && Waits(s', s.current)
            && s' == s.(current := -1, cpu := CpuState(0, true, true), threads := s'.threads)
            && s'.threads == s.threads[s.current := Thread(Sleeping, false, OnChild, Parked(KChild))]
  {
    InTrap(s);
    hide After, AllGuarded;
    OneMore(s, TrapWait, GIVE_UP);
    GivesUp(Perform(s, TrapWait), KChild);
  }

  /** The hart once the current thread is parked. */
  function GivenUp(s: Sys, k: Cont): Sys
    requires At(s)
  {
    s.(current := -1, cpu := CpuState(0, true, true),
       threads := s.threads[s.current := Cur(s).(lock := false, pc := Parked(k))])
  }

  /** And once thread t has it and `sched` has returned in it. */
  function GivenTo(s: Sys, t: nat, k: Cont): Sys
    requires t < |s.threads|
  {
    s.(current := t, cpu := CpuState(2, true, false),
       threads := s.threads[t := s.threads[t].(state := Running, lock := true, pc := Resumed(k))])
  }

  /** Thread t gets the hart after event e of another, or the same, one. */
  function Handover(e: Event, t: nat, last: Event): seq<Event> {
    ([e] + GIVE_UP) + ([Dispatch(t), SchedReturn] + [last])
  }

  lemma HandsOver(s: Sys, e: Event, k: Cont, t: nat, j: Cont, last: Event)
    requires var s1 := Perform(s, e);
             At(s1) && Cur(s1).pc == Calling(k) && s1.cpu == CpuState(2, true, false) && t < |s1.threads|
             && var th := GivenUp(s1, k).threads[t];
                th.state == Ready && !th.lock && th.pc == Parked(j)
    ensures After(s, Handover(e, t, last)) == Perform(GivenTo(GivenUp(Perform(s, e), k), t, j), last)
  {
    hide After, AllGuarded, Perform, CanDo;
    var s1 := Perform(s, e);
    OneMore(s, e, GIVE_UP);
    GivesUp(s1, k);
    var s2 := GivenUp(s1, k);
    BackRuns(s2, t, j);
    LastOne(GivenTo(s2, t, j), last);
    Together(s2, [Dispatch(t), SchedReturn], [last]);
    Together(s, [e] + GIVE_UP, [Dispatch(t), SchedReturn] + [last]);
  }

  lemma LastOne(s: Sys, e: Event)
    ensures After(s, [e]) == Perform(s, e)
  {
    hide Perform;
    assert [e] + [] == [e];
    OneMore(s, e, []);
    Ended(Perform(s, e));
  }

  lemma ChildBack(s: Sys, t: nat)
    requires t < |s.threads|
    ensures var s' := Perform(GivenTo(s, t, KChild), ResumeChild);
            s' == s.(current := t, cpu := CpuState(2, true, false),
                     threads := s.threads[t := s.threads[t].(state := Running, lock := true, pc := Trap)])
  {
    var s1 := GivenTo(s, t, KChild);
    assert s1.threads[t := s1.threads[t].(pc := Trap)]
        == s.threads[t := s.threads[t].(state := Running, lock := true, pc := Trap)];
  }

  lemma TrapBack(s: Sys, t: nat)
    requires t < |s.threads|
    ensures var s' := Perform(GivenTo(s, t, KTrap), ResumeTrap);
            s' == s.(current := t, cpu := CpuState(1, true, false),
                     threads := s.threads[t := s.threads[t].(state := Running, lock := true, pc := User)])
  {
    var s1 := GivenTo(s, t, KTrap);
    assert s1.threads[t := s1.threads[t].(pc := User)]
        == s.threads[t := s.threads[t].(state := Running, lock := true, pc := User)];
  }

  /** A thread that exits parks for good, and the hart goes to a parent it named,
      which then goes on in its system call. */
  lemma NamedComesBack(s: Sys, woken: set<nat>, t: nat)
    requires SysInv(s) && CanStep(s, TrapExit(woken)) && t < |s.threads| && t != s.current
    requires WokenByExit(s, t, woken) && s.threads[t].pc == Parked(KChild)
    ensures var s' := After(s, Handover(TrapExit(woken), t, ResumeChild));
            && s'.current == t && s'.cpu == CpuState(2, true, false) && |s'.threads| == |s.threads|
            && s'.threads[t] == Thread(Running, true, OnChild, Trap)
            && s'.threads[s.current] == Cur(s).(state := Unused, lock := false, pc := Parked(KDead))
  {
    InTrap(s);
    ExitWakes(s, woken);
    IdleOrCurrent(s, t);
    hide After, SysInv, Perform, CanDo;
    var s1 := Perform(s, TrapExit(woken));
    HandsOver(s, TrapExit(woken), KDead, t, KChild, ResumeChild);
    ChildBack(GivenUp(s1, KDead), t);
  }

  /** A thread that yields comes back to user mode with everything as it was. */
  lemma YieldedComesBack(s: Sys)
    requires SysInv(s) && CanStep(s, TrapYield(false))
    ensures After(s, Handover(TrapYield(false), s.current, ResumeTrap))
         == s.(cpu := CpuState(1, true, false), threads := s.threads[s.current := Cur(s).(pc := User)])
  {
    InTrap(s);
    TimerTrapYields(s);
    hide After, SysInv, Perform, CanDo;
    var s1, t: nat := Perform(s, TrapYield(false)), s.current;
    HandsOver(s, TrapYield(false), KTrap, t, KTrap, ResumeTrap);
    TrapBack(GivenUp(s1, KTrap), t);
    assert GivenUp(s1, KTrap).threads[t := Cur(s).(pc := User)] == s.threads[t := Cur(s).(pc := User)];
  }

  /* ---- a request comes back ---- */

  /** The end of `virtio_disk_rw` and of the system call. */
  const WIND_UP: seq<Event> := [ResumeDisk, RwFinish, TrapReturn]

  /** A ready thread whose request has been taken back by the handler. */
  lemma TakenRequest(s: Sys, t: nat, b: nat, h: nat)
    requires SysInv(s) && s.current == -1 && t < |s.threads|
    requires s.threads[t].state == Ready && s.threads[t].pc == Parked(KDisk(b, h))
    ensures !s.diskLock && s.cpu.push == 0 && s.cpu.sie && !s.threads[t].lock
    ensures b < |s.bufs| && s.bufs[b] == Buf(false, []) && Sized(s.ring) && h in s.ring.chains && Placed(s.ring, h)
  {
    IdleOrCurrent(s, t);
    assert DiskOk(s, t);
    RingSized(s);
  }

  lemma ResumesDisk(s: Sys, b: nat, h: nat)
    requires At(s) && Cur(s).pc == Resumed(KDisk(b, h)) && s.cpu == CpuState(2, true, false) && !s.diskLock
    requires b < |s.bufs| && !s.bufs[b].disk
    ensures Perform(s, ResumeDisk)
         == s.(cpu := CpuState(3, true, false), diskLock := true,
               threads := s.threads[s.current := Cur(s).(pc := RwReclaim(b, h))])
  {
  }

  lemma Finishes(s: Sys, b: nat, h: nat)
    requires At(s) && Cur(s).pc == RwReclaim(b, h) && s.cpu == CpuState(3, true, false)
    requires Sized(s.ring) && h in s.ring.chains && Placed(s.ring, h)
    ensures Perform(s, RwFinish)
         == s.(cpu := CpuState(2, true, false), diskLock := false, ring := Reclaim(s.ring, h),
               threads := s.threads[s.current := Cur(s).(pc := Trap)])
  {
    hide Reclaim;
  }

  lemma ReturnsToUser(s: Sys)
    requires At(s) && Cur(s).pc == Trap && s.cpu == CpuState(2, true, false)
    ensures Perform(s, TrapReturn)
         == s.(cpu := CpuState(1, true, false), threads := s.threads[s.current := Cur(s).(pc := User)])
  {
  }

  lemma WindUpRuns(s: Sys, b: nat, h: nat)
    requires At(s) && Cur(s).pc == Resumed(KDisk(b, h)) && s.cpu == CpuState(2, true, false) && !s.diskLock
    requires b < |s.bufs| && !s.bufs[b].disk && Sized(s.ring) && h in s.ring.chains && Placed(s.ring, h)
    ensures After(s, WIND_UP)
         == s.(cpu := CpuState(1, true, false), threads := s.threads[s.current := Cur(s).(pc := User)],
               ring := Reclaim(s.ring, h))
  {
    assert h < NUM && s.ring.chains[h].mid < NUM && s.ring.chains[h].last < NUM;
    hide After, AllGuarded, Reclaim, Placed, Perform;
    ResumesDisk(s, b, h);
    var s1 := Perform(s, ResumeDisk);
    Finishes(s1, b, h);
    var s2 := Perform(s1, RwFinish);
    ReturnsToUser(s2);
    assert [ResumeDisk] + [RwFinish, TrapReturn] == WIND_UP && [RwFinish] + [TrapReturn] == [RwFinish, TrapReturn];
    OneMore(s, ResumeDisk, [RwFinish, TrapReturn]);
    OneMore(s1, RwFinish, [TrapReturn]);
    LastOne(s2, TrapReturn);
  }

  /** It gets the hart and comes back to user mode; its chain is gone, its three
      descriptors are free, and nothing else has changed. */
  lemma DiskComesBack(s: Sys, t: nat, b: nat, h: nat)
    requires SysInv(s) && s.current == -1 && t < |s.threads|
    requires s.threads[t].state == Ready && s.threads[t].pc == Parked(KDisk(b, h))
    ensures h in s.ring.chains
    ensures var s', c := After(s, [Dispatch(t), SchedReturn] + WIND_UP), s.ring.chains[h];
            && s' == s.(current := t, cpu := CpuState(1, true, false), ring := s'.ring,
                        threads := s.threads[t := s.threads[t].(state := Running, lock := true, pc := User)])
            && s'.ring.chains == s.ring.chains - {h} && |s.ring.free| == NUM
            && h < NUM && c.mid < NUM && c.last < NUM
            && s'.ring.free == s.ring.free[h := true][c.mid := true][c.last := true]
  {
    TakenRequest(s, t, b, h);
    hide After, SysInv, Perform, CanDo;
    BackRuns(s, t, KDisk(b, h));
    var s1 := GivenTo(s, t, KDisk(b, h));
    WindUpRuns(s1, b, h);
    Together(s, [Dispatch(t), SchedReturn], WIND_UP);
    assert s1.threads[t := s1.threads[t].(pc := User)]
        == s.threads[t := s.threads[t].(state := Running, lock := true, pc := User)];
  }

  /* ---- a request alone, from call to return ---- */

  lemma StartsAlone(s: Sys, b: nat, req: BlkReq)
    requires SysInv(s) && CanStep(s, RwStart(b, req)) && s.ring.chains == map[]
    ensures var s' := Perform(s, RwStart(b, req));
            && SysInv(s') && AllGuarded(s, [RwStart(b, req)]) && After(s, [RwStart(b, req)]) == s'
            && s.cpu == CpuState(2, true, false) && !s.diskLock && s.bufs[b] == Buf(false, [])
            && s' == s.(threads := s.threads[s.current := Cur(s).(pc := RwLocked(b, req))],
                        cpu := CpuState(3, true, false), diskLock := true)
  {
    InTrap(s);
    PresumedHolds(s, RwStart(b, req));
    forall t: nat | t < |s.threads|
      ensures !Wants(s, t, b)
    {
      assert DiskOk(s, t);
    }
    assert BufOk(s, b);
    StepOk(s, RwStart(b, req));
    hide SysInv, Effect;
    Ended(Perform(s, RwStart(b, req)));
    assert [RwStart(b, req)] + [] == [RwStart(b, req)];
    OneMore(s, RwStart(b, req), []);
  }

  /** The chain is posted and published, and the thread sleeps, parked. */
  lemma SubmitsAlone(s: Sys, b: nat, req: BlkReq)
    requires SysInv(s) && At(s) && Cur(s).pc == RwLocked(b, req) && s.cpu == CpuState(3, true, false) && s.diskLock
    requires s.ring.chains == map[] && b < |s.bufs| && s.bufs[b] == Buf(false, [])
    ensures var s', h := After(s, SUBMIT + [SchedSwitch]), NewChain(s);
            && SysInv(s') && AllGuarded(s, SUBMIT + [SchedSwitch])
            && s' == s.(current := -1, cpu := CpuState(0, true, true), diskLock := false, ring := s'.ring,
                        bufs := s.bufs[b := Buf(true, [s.current])],
                        threads := s.threads[s.current := Cur(s).(state := Sleeping, waiting := OnBuf(b), lock := false,
                                                                  pc := Parked(KDisk(b, h)))])
            && s'.ring.chains.Keys == {h} && s'.ring.chains[h].buf == b && s'.ring.chains[h].phase == Queued
            && NoPosted(s'.ring)
  {
    hide SysInv, After, AllGuarded, CanPost, Sized, Perform, Post, Publish, NewChain;
    PostAddsChain(s, b, req);
    ChainPosted(s, b, req);
    SubmitRuns(s, b, req);
    var s1, h := After(s, SUBMIT), NewChain(s);
    SwitchRuns(s1, KDisk(b, h));
    LastOne(s1, SchedSwitch);
    Together(s, SUBMIT, [SchedSwitch]);
    NothingGuarded(s1);
    GuardedIsSafe(s, SUBMIT + [SchedSwitch]);
    assert s.bufs[b].queue + [s.current] == [s.current];
  }

  lemma NothingGuarded(s: Sys)
    ensures AllGuarded(s, [SchedSwitch])
  {
    hide Perform;
    assert [SchedSwitch] + [] == [SchedSwitch];
    Ended(Perform(s, SchedSwitch));
    OneMore(s, SchedSwitch, []);
  }

  lemma ChainPosted(s: Sys, b: nat, req: BlkReq)
    requires SysInv(s) && At(s) && Cur(s).pc == RwLocked(b, req) && s.ring.chains == map[] && b < |s.bufs|
    requires CanPost(s.ring) && Sized(s.ring)
    ensures var h, r := NewChain(s), Post(s.ring, b, req);
            && h in r.chains && Publish(r, h).chains.Keys == {h} && Publish(r, h).chains[h].buf == b
            && Publish(r, h).chains[h].phase == Queued && NoPosted(Publish(r, h))
  {
    hide Inv, ModeInv, LinkInv, CanPost;
    PostInv(s.ring, b, req);
  }

  /** The device takes the chain, finishes it and reports it, and the handler runs. */
  function Answer(h: nat): seq<Event> { [DevConsume, DevComplete(h)] + [KernelIntr] }

  lemma IsAlone(s: Sys, h: nat, b: nat)
    requires SysInv(s) && s.ring.chains.Keys == {h} && s.ring.chains[h].buf == b && NoPosted(s.ring)
    ensures Alone(s.ring, h, b)
  {
    assert |s.ring.chains| == |s.ring.chains.Keys| == 1;
    assert CountFree(s.ring.free) + 3 * |s.ring.chains| == NUM;
  }

  lemma DeviceUses(s: Sys, b: nat, h: nat)
    requires SysInv(s) && s.ring.chains.Keys == {h} && s.ring.chains[h].buf == b && s.ring.chains[h].phase == Queued
    requires NoPosted(s.ring)
    ensures var s' := After(s, [DevConsume, DevComplete(h)]);
            && SysInv(s') && AllGuarded(s, [DevConsume, DevComplete(h)]) && s' == s.(ring := s'.ring)
            && s'.ring.chains.Keys == {h} && s'.ring.chains[h].buf == b && s'.ring.chains[h].phase == Used
  {
    IsAlone(s, h, b);
    hide SysInv, Alone, After, AllGuarded, Perform, NoPosted;
    ConsumeAlone(s, h, b);
    var s1 := Perform(s, DevConsume);
    CompleteAlone(s1, h, b);
    AloneIs(Perform(s1, DevComplete(h)).ring, h, b);
    assert [DevConsume] + [DevComplete(h)] == [DevConsume, DevComplete(h)];
    OneMore(s, DevConsume, [DevComplete(h)]);
    LastGuarded(s1, DevComplete(h));
    GuardedIsSafe(s, [DevConsume, DevComplete(h)]);
  }

  lemma AloneIs(r: Ring, h: nat, b: nat)
    requires Alone(r, h, b)
    ensures r.chains.Keys == {h} && r.chains[h].buf == b
  {
  }

  /** A sleeping thread whose request is alone on its way is made ready. */
  lemma DeviceAnswers(s: Sys, t: nat, b: nat, h: nat)
    requires SysInv(s) && s.current == -1 && s.cpu == CpuState(0, true, true) && t < |s.threads| && b < |s.bufs|
    requires s.ring.chains.Keys == {h} && s.ring.chains[h].buf == b && s.ring.chains[h].phase == Queued
    requires NoPosted(s.ring) && s.threads[t].pc == Parked(KDisk(b, h)) && s.bufs[b] == Buf(true, [t])
    ensures var s' := After(s, Answer(h));
            && SysInv(s') && AllGuarded(s, Answer(h))
            && s' == s.(cpu := CpuState(0, false, true), bufs := s.bufs[b := Buf(false, [])], ring := s'.ring,
                        threads := s.threads[t := s.threads[t].(state := Ready)])
            && s'.ring.chains.Keys == {h}
  {
    hide SysInv, After, AllGuarded, Perform, NoPosted, Delivered, CanDo, Reported;
    DeviceUses(s, b, h);
    var s2 := After(s, [DevConsume, DevComplete(h)]);
    LastGuarded(s2, KernelIntr);
    Together(s, [DevConsume, DevComplete(h)], [KernelIntr]);
    GuardedIsSafe(s, Answer(h));
    KernelIntrDelivers(s2);
    OneDelivered(s2, Perform(s2, KernelIntr), t, b, h);
  }

  lemma LastGuarded(s: Sys, e: Event)
    requires !e.RwStart?
    ensures After(s, [e]) == Perform(s, e) && AllGuarded(s, [e])
  {
    hide Perform;
    assert [e] + [] == [e];
    OneMore(s, e, []);
    Ended(Perform(s, e));
  }

  lemma OneDelivered(s: Sys, s': Sys, t: nat, b: nat, h: nat)
    requires SysInv(s) && Delivered(s, s', -1) && t < |s.threads| && b < |s.bufs| && s.ring.chains.Keys == {h}
    requires s.ring.chains[h].buf == b && s.ring.chains[h].phase == Used && s.threads[t].pc == Parked(KDisk(b, h))
    ensures s'.threads == s.threads[t := s.threads[t].(state := Ready)] && s'.bufs == s.bufs[b := Buf(false, [])]
    ensures s'.ring.chains.Keys == {h}
  {
    forall u: nat | u < |s.threads|
      ensures s'.threads[u] == if u == t then s.threads[u].(state := Ready) else s.threads[u]
    {
      assert ThreadWoken(s, s', u) && DiskOk(s, u) && OwnRequest(s, u, t);
    }
    forall d: nat | d < |s.bufs|
      ensures s'.bufs[d] == if d == b then Buf(false, []) else s.bufs[d]
    {
      assert BufferFreed(s, s', d);
      assert h in s.ring.chains.Keys;
    }
  }

  /** From the call of `virtio_disk_rw` to the return to user mode, with the device
      and its interrupt in between. */
  function WholeRequest(s: Sys, b: nat, req: BlkReq): seq<Event>
    requires At(s)
  {
    var h := NewChain(s);
    ([RwStart(b, req)] + (SUBMIT + [SchedSwitch])) + (Answer(h) + ([Dispatch(s.current), SchedReturn] + WIND_UP))
  }

  lemma AsleepAlone(s: Sys, b: nat, req: BlkReq)
    requires SysInv(s) && CanStep(s, RwStart(b, req)) && s.ring.chains == map[]
    ensures var s', h := After(s, [RwStart(b, req)] + (SUBMIT + [SchedSwitch])), NewChain(s);
            && SysInv(s') && s.bufs[b] == Buf(false, []) && !s.diskLock
            && s' == s.(current := -1, cpu := CpuState(0, true, true), ring := s'.ring,
                        bufs := s.bufs[b := Buf(true, [s.current])],
                        threads := s.threads[s.current := Thread(Sleeping, false, OnBuf(b), Parked(KDisk(b, h)))])
            && s'.ring.chains.Keys == {h} && s'.ring.chains[h].buf == b && s'.ring.chains[h].phase == Queued
            && NoPosted(s'.ring)
  {
    hide SysInv, After, AllGuarded, Perform, NewChain, NoPosted;
    StartsAlone(s, b, req);
    var s1 := Perform(s, RwStart(b, req));
    SubmitsAlone(s1, b, req);
    SameChain(s, s1);
    Together(s, [RwStart(b, req)], SUBMIT + [SchedSwitch]);
    var s2 := After(s1, SUBMIT + [SchedSwitch]);
    assert s2.threads == s.threads[s.current := Thread(Sleeping, false, OnBuf(b), Parked(KDisk(b, NewChain(s))))];
  }

  lemma BackAlone(s: Sys, t: nat, b: nat, h: nat)
    requires SysInv(s) && s.current == -1 && s.cpu == CpuState(0, true, true) && t < |s.threads| && b < |s.bufs|
    requires s.ring.chains.Keys == {h} && s.ring.chains[h].buf == b && s.ring.chains[h].phase == Queued
    requires NoPosted(s.ring) && s.threads[t].pc == Parked(KDisk(b, h)) && s.bufs[b] == Buf(true, [t])
    ensures var s' := After(s, Answer(h) + ([Dispatch(t), SchedReturn] + WIND_UP));
            && s' == s.(current := t, cpu := CpuState(1, true, false), bufs := s.bufs[b := Buf(false, [])],
                        ring := s'.ring,
                        threads := s.threads[t := s.threads[t].(state := Running, lock := true, pc := User)])
            && s'.ring.chains == map[]
  {
    hide SysInv, After, AllGuarded, Perform, CanDo, NoPosted;
    DeviceAnswers(s, t, b, h);
    var s3, back := After(s, Answer(h)), [Dispatch(t), SchedReturn] + WIND_UP;
    DiskComesBack(s3, t, b, h);
    Together(s, Answer(h), back);
    var s4 := After(s3, back);
    assert s4.ring.chains.Keys == {};
    assert s4.threads == s.threads[t := s.threads[t].(state := Running, lock := true, pc := User)];
  }

  /** A request that is alone comes back: the thread is in user mode again, no chain
      is left, and every other thread, every buffer and the disk lock are as before. */
  lemma RequestComesBack(s: Sys, b: nat, req: BlkReq)
    requires SysInv(s) && CanStep(s, RwStart(b, req)) && s.ring.chains == map[]
    ensures var s' := After(s, WholeRequest(s, b, req));
            && s' == s.(cpu := CpuState(1, true, false), ring := s'.ring,
                        threads := s.threads[s.current := Thread(Running, true, OnBuf(b), User)])
            && s'.ring.chains == map[]
  {
    InTrap(s);
    hide SysInv, After, AllGuarded, Perform, CanDo, NewChain, NoPosted, Answer;
    var h, t: nat, first := NewChain(s), s.current, [RwStart(b, req)] + (SUBMIT + [SchedSwitch]);
    AsleepAlone(s, b, req);
    BackAlone(After(s, first), t, b, h);
    Together(s, first, Answer(h) + ([Dispatch(t), SchedReturn] + WIND_UP));
    var asleep, back := Thread(Sleeping, false, OnBuf(b), Parked(KDisk(b, h))), Thread(Running, true, OnBuf(b), User);
    assert s.threads[t := asleep][t := back] == s.threads[t := back];
    assert s.bufs[b := Buf(true, [t])][b := Buf(false, [])] == s.bufs;
  }

  lemma SameChain(s: Sys, s': Sys)
    requires s'.ring == s.ring
    ensures NewChain(s') == NewChain(s)
  {
  }
}
