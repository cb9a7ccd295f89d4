/** What goes wrong on the hart when two threads ask for one buffer, and when a
    third request finds no descriptors: runs built step by step. */
module KernelHazards {
  import opened Interrupts
  import opened VirtioRing
  import opened VirtioLaws
  import opened Kernel
  import opened KernelLaws
  import opened KernelRuns

  /* ---- pieces of runs ---- */

  /** The current thread, the nesting count, disk.lock, buffers and ring are new. */
  function Stage(s: Sys, th: Thread, cpu: CpuState, diskLock: bool, bufs: seq<Buf>, ring: Ring): Sys
    requires At(s)
  {
    s.(threads := s.threads[s.current := th], cpu := cpu, diskLock := diskLock, bufs := bufs, ring := ring)
  }

  /** From the locked section of `virtio_disk_rw` to sched with the locks released. */
  const SUBMIT: seq<Event> := [RwPost, RwPublish, RwUnlock, RwSleep, SchedUnlock]

  /** Inside the locked section, with descriptors free. */
  predicate InSection(s: Sys, b: nat, req: BlkReq) {
    && At(s) && Cur(s).pc == RwLocked(b, req) && s.cpu == CpuState(3, true, false) && s.diskLock && b < |s.bufs|
    && Sized(s.ring) && CanPost(s.ring)
  }

  /** The chain a new request gets. */
  function NewChain(s: Sys): nat { Three(s.ring.free).0 }

  function Submitted(s: Sys, b: nat, req: BlkReq): Sys
    requires InSection(s, b, req) && NewChain(s) in Post(s.ring, b, req).chains
  {
    Stage(s, Cur(s).(state := Sleeping, waiting := OnBuf(b), lock := false, pc := Unlocked(KDisk(b, NewChain(s)))),
          CpuState(0, true, true), false, s.bufs[b := Buf(true, s.bufs[b].queue + [s.current])],
          Publish(Post(s.ring, b, req), NewChain(s)))
  }

  lemma PostRuns(s: Sys, b: nat, req: BlkReq)
    requires InSection(s, b, req)
    ensures Perform(s, RwPost)
         == Stage(s, Cur(s).(pc := RwPosted(b, NewChain(s))), CpuState(3, true, false), true,
                  s.bufs[b := s.bufs[b].(disk := true)], Post(s.ring, b, req))
  {
    hide Post, Three, CanPost;
  }

  lemma PublishRuns(s: Sys, th: Thread, b: nat, h: nat, bufs: seq<Buf>, ring: Ring)
    requires At(s) && th.pc == RwPosted(b, h) && h in ring.chains
    ensures Perform(Stage(s, th, CpuState(3, true, false), true, bufs, ring), RwPublish)
         == Stage(s, th.(pc := RwPublished(b, h)), CpuState(3, true, false), true, bufs, Publish(ring, h))
  {
    hide Publish;
  }

  lemma UnlockRuns(s: Sys, th: Thread, b: nat, h: nat, bufs: seq<Buf>, ring: Ring)
    requires At(s) && th.pc == RwPublished(b, h)
    ensures Perform(Stage(s, th, CpuState(3, true, false), true, bufs, ring), RwUnlock)
         == Stage(s, th.(pc := RwWait(b, h)), CpuState(2, true, false), false, bufs, ring)
  {
  }

  lemma SleepRuns(s: Sys, th: Thread, b: nat, h: nat, bufs: seq<Buf>, ring: Ring)
    requires At(s) && th.pc == RwWait(b, h) && b < |bufs|
    ensures Perform(Stage(s, th, CpuState(2, true, false), false, bufs, ring), RwSleep)
         == Stage(s, th.(state := Sleeping, waiting := OnBuf(b), pc := Calling(KDisk(b, h))), CpuState(2, true, false),
                  false,
                  bufs[b := bufs[b].(queue := bufs[b].queue + [s.current])], ring)
  {
  }

  lemma ReleaseRuns(s: Sys, th: Thread, k: Cont, bufs: seq<Buf>, ring: Ring)
    requires At(s) && th.pc == Calling(k)
    ensures Perform(Stage(s, th, CpuState(2, true, false), false, bufs, ring), SchedUnlock)
         == Stage(s, th.(lock := false, pc := Unlocked(k)), CpuState(0, true, true), false, bufs, ring)
  {
  }

  lemma SubmitRuns(s: Sys, b: nat, req: BlkReq)
    requires InSection(s, b, req) && NewChain(s) in Post(s.ring, b, req).chains
    ensures After(s, SUBMIT) == Submitted(s, b, req) && AllGuarded(s, SUBMIT)
  {
    hide Post, Publish, Three, After, AllGuarded, Placed, Perform, CanPost, Sized;
    var h, th, r := NewChain(s), Cur(s), Post(s.ring, b, req);
    var bufs1 := s.bufs[b := s.bufs[b].(disk := true)];
    var bufs2 := bufs1[b := bufs1[b].(queue := bufs1[b].queue + [s.current])];
    assert bufs2 == s.bufs[b := Buf(true, s.bufs[b].queue + [s.current])];
    PostRuns(s, b, req);
    PublishRuns(s, th.(pc := RwPosted(b, h)), b, h, bufs1, r);
    UnlockRuns(s, th.(pc := RwPublished(b, h)), b, h, bufs1, Publish(r, h));
    SleepRuns(s, th.(pc := RwWait(b, h)), b, h, bufs1, Publish(r, h));
    var th4 := th.(state := Sleeping, waiting := OnBuf(b), pc := Calling(KDisk(b, h)));
    ReleaseRuns(s, th4, KDisk(b, h), bufs2, Publish(r, h));
    FiveSteps(s, Perform(s, RwPost), Perform(Perform(s, RwPost), RwPublish),
              Stage(s, th.(pc := RwWait(b, h)), CpuState(2, true, false), false, bufs1, Publish(r, h)),
              Stage(s, th4, CpuState(2, true, false), false, bufs2, Publish(r, h)), Submitted(s, b, req));
  }

  lemma FiveSteps(s: Sys, s1: Sys, s2: Sys, s3: Sys, s4: Sys, s5: Sys)
    requires Perform(s, RwPost) == s1 && Perform(s1, RwPublish) == s2 && Perform(s2, RwUnlock) == s3
             && Perform(s3, RwSleep) == s4
    requires Perform(s4, SchedUnlock) == s5
    ensures After(s, SUBMIT) == s5 && AllGuarded(s, SUBMIT)
  {
    hide Perform, CanDo;
    OneMore(s, RwPost, [RwPublish, RwUnlock, RwSleep, SchedUnlock]);
    OneMore(s1, RwPublish, [RwUnlock, RwSleep, SchedUnlock]);
    OneMore(s2, RwUnlock, [RwSleep, SchedUnlock]);
    OneMore(s3, RwSleep, [SchedUnlock]);
    OneMore(s4, SchedUnlock, []);
    Ended(s5);
  }

  lemma Ended(s: Sys)
    ensures After(s, []) == s && AllGuarded(s, [])
  {
  }

  lemma OneMore(s: Sys, e: Event, rest: seq<Event>)
    ensures After(s, [e] + rest) == After(Perform(s, e), rest)
    ensures !e.RwStart? ==> (AllGuarded(s, [e] + rest) <==> AllGuarded(Perform(s, e), rest))
    ensures Guarded(s, e) ==> (AllGuarded(s, [e] + rest) <==> AllGuarded(Perform(s, e), rest))
  {
    hide Perform, CanDo;
    assert ([e] + rest)[0] == e && ([e] + rest)[1..] == rest;
  }

  lemma Together(s: Sys, a: seq<Event>, b: seq<Event>)
    ensures After(s, a + b) == After(After(s, a), b)
    ensures AllGuarded(s, a + b) <==> AllGuarded(s, a) && AllGuarded(After(s, a), b)
    decreases |a|
  {
    hide Perform, CanDo, Guarded;
    if a == [] {
      assert a + b == b;
    } else {
      assert (a + b)[0] == a[0] && (a + b)[1..] == a[1..] + b;
      Together(Perform(s, a[0]), a[1..], b);
    }
  }

  /** The scheduler dispatches a parked thread, and sched returns in it. */
  lemma BackRuns(s: Sys, t: nat, k: Cont)
    requires s.current == -1 && s.cpu.push == 0 && s.cpu.sie && t < |s.threads|
    requires s.threads[t].state == Ready && !s.threads[t].lock && s.threads[t].pc == Parked(k)
    ensures After(s, [Dispatch(t), SchedReturn])
         == s.(current := t, cpu := CpuState(2, true, false),
               threads := s.threads[t := s.threads[t].(state := Running, lock := true, pc := Resumed(k))])
    ensures AllGuarded(s, [Dispatch(t), SchedReturn])
  {
    hide After, AllGuarded;
    var s1, th := Perform(s, Dispatch(t)), s.threads[t].(state := Running, lock := true, pc := Back(k));
    assert s1 == s.(current := t, cpu := CpuState(1, true, false), threads := s.threads[t := th]);
    var s2 := Perform(s1, SchedReturn);
    assert s2 == s1.(cpu := CpuState(2, true, false), threads := s1.threads[t := th.(pc := Resumed(k))]);
    assert [Dispatch(t)] + [SchedReturn] == [Dispatch(t), SchedReturn] && [SchedReturn] + [] == [SchedReturn];
    OneMore(s, Dispatch(t), [SchedReturn]);
    OneMore(s1, SchedReturn, []);
    Ended(s2);
  }

  lemma SwitchRuns(s: Sys, k: Cont)
    requires At(s) && Cur(s).pc == Unlocked(k)
    ensures Perform(s, SchedSwitch) == s.(threads := s.threads[s.current := Cur(s).(pc := Parked(k))], current := -1)
  {
  }

  /* ---- two requests for one buffer ---- */

  /** The only other outstanding request, h, is on its way. */
  ghost predicate Alone(r: Ring, h: nat, b: nat) {
    Inv(r) && NoPosted(r) && CanPost(r) && r.chains.Keys == {h} && r.chains[h].buf == b
  }

  /** The device can finish a request that is alone on its way. */
  lemma DeviceFinishes(s: Sys, h: nat, b: nat) returns (events: seq<Event>)
    requires h in s.ring.chains && Alone(s.ring, h, b) && s.ring.chains[h].phase in {Queued, InDevice, Used}
    ensures AllGuarded(s, events)
    ensures var s' := After(s, events);
            s' == s.(ring := s'.ring) && Alone(s'.ring, h, b) && s'.ring.chains[h].phase == Used
  {
    hide Alone, After, AllGuarded, Perform;
    Ended(s);
    match s.ring.chains[h].phase {
      case Queued =>
        ConsumeAlone(s, h, b);
        var s1 := Perform(s, DevConsume);
        CompleteAlone(s1, h, b);
        events := [DevConsume, DevComplete(h)];
        assert [DevConsume] + [DevComplete(h)] == events && [DevComplete(h)] + [] == [DevComplete(h)];
        OneMore(s, DevConsume, [DevComplete(h)]);
        OneMore(s1, DevComplete(h), []);
        Ended(Perform(s1, DevComplete(h)));
      case InDevice =>
        CompleteAlone(s, h, b);
        events := [DevComplete(h)];
        assert [DevComplete(h)] + [] == events;
        OneMore(s, DevComplete(h), []);
        Ended(Perform(s, DevComplete(h)));
      case Used =>
        events := [];
    }
  }

  lemma ConsumeEffect(s: Sys)
    requires Sized(s.ring)
    ensures s.ring.devSeen != s.ring.availIdx ==> Perform(s, DevConsume) == s.(ring := Consume(s.ring))
  {
    hide Consume;
  }

  lemma CompleteEffect(s: Sys, h: nat)
    requires Sized(s.ring) && h in s.ring.chains && s.ring.chains[h].phase == InDevice
    ensures Perform(s, DevComplete(h)) == s.(ring := Complete(s.ring, h))
  {
    hide Complete;
  }

  lemma ConsumeAlone(s: Sys, h: nat, b: nat)
    requires Alone(s.ring, h, b) && s.ring.chains[h].phase == Queued
    ensures var s' := Perform(s, DevConsume);
            s' == s.(ring := s'.ring) && Alone(s'.ring, h, b) && s'.ring.chains[h].phase == InDevice
  {
    hide Inv, Perform, Placed;
    QueuedWaits(s.ring, h);
    ConsumeEffect(s);
    ConsumeInv(s.ring);
    var g := s.ring.availRing[s.ring.devSeen % NUM];
    assert g in s.ring.chains.Keys && g == h;
    assert Consume(s.ring).chains.Keys == {h};
  }

  lemma QueuedWaits(r: Ring, h: nat)
    requires Inv(r) && h in r.chains && r.chains[h].phase == Queued
    ensures r.c < r.s && Sized(r)
  {
    assert PhaseOk(r, h);
  }

  lemma CompleteAlone(s: Sys, h: nat, b: nat)
    requires Alone(s.ring, h, b) && s.ring.chains[h].phase == InDevice
    ensures var s' := Perform(s, DevComplete(h));
            s' == s.(ring := s'.ring) && Alone(s'.ring, h, b) && s'.ring.chains[h].phase == Used
  {
    hide Inv, Perform, Placed;
    RingSized(s);
    CompleteEffect(s, h);
    CompleteInv(s.ring, h);
    assert Complete(s.ring, h).chains.Keys == {h};
  }

  /** With one request finished and another behind it, the handler takes back just
      the finished one. */
  lemma TakeFirst(r: Ring, h: nat, g: nat)
    requires Inv(r) && g != h && r.chains.Keys == {h, g} && r.chains[h].phase == Used && r.chains[g].phase == Queued
    ensures r.seen != r.usedIdx && r.usedRing[r.seen % NUM] == h && Inv(Take(r))
    ensures Take(r).chains == r.chains[h := r.chains[h].(phase := Taken)] && Take(r).seen == Take(r).usedIdx
  {
    TakeInv(r);
    assert PhaseOk(r, h);
    var x := r.usedRing[r.seen % NUM];
    assert x in r.chains.Keys && x == h;
    assert Take(r).chains.Keys == {h, g};
    AllSeen(Take(r));
  }

  lemma AllSeen(r: Ring)
    requires Inv(r) && forall h | h in r.chains :: r.chains[h].phase != Used
    ensures r.seen == r.usedIdx
  {
    TakeInv(r);
  }

  lemma AwakeBoth(threads: seq<Thread>, t: nat, u: nat, b: nat)
    requires t < |threads| && u < |threads| && t != u
    requires threads[t].waiting == OnBuf(b) && threads[t].state == Sleeping
    requires threads[u].waiting == OnBuf(b) && threads[u].state == Sleeping
    ensures AwakeAll(threads, [t, u], b)
         == threads[t := threads[t].(state := Ready)][u := threads[u].(state := Ready)]
  {
    var woken := threads[t := threads[t].(state := Ready)];
    assert [t, u][1..] == [u];
    AwakeOne(woken, u, b);
  }

  /** One interrupt wakes both threads. */
  lemma BothWoken(s: Sys, t: nat, h: nat, g: nat, b: nat)
    requires At(s) && Cur(s).pc == Unlocked(KDisk(b, g)) && s.cpu == CpuState(0, true, true) && b < |s.bufs|
    requires t < |s.threads| && t != s.current && s.bufs[b].queue == [t, s.current]
    requires s.threads[t].state == Sleeping && s.threads[t].waiting == OnBuf(b)
    requires Cur(s).state == Sleeping && Cur(s).waiting == OnBuf(b)
    requires Inv(s.ring) && g != h && s.ring.chains.Keys == {h, g} && s.ring.chains[h].buf == b
    requires s.ring.chains[h].phase == Used && s.ring.chains[g].phase == Queued
    ensures var s' := Perform(s, KernelIntr);
            && s'.current == s.current && s'.cpu.push == 0 && s'.cpu.sie && s'.diskLock == s.diskLock
            && s'.bufs == s.bufs[b := Buf(false, [])] && s'.ring == Take(s.ring)
            && s'.threads == s.threads[t := s.threads[t].(state := Ready)][s.current := Cur(s).(state := Ready)]
            && g in s'.ring.chains && s'.ring.chains[g].phase == Queued
  {
    hide Inv, Take, AwakeAll;
    RingSized(s);
    TakeFirst(s.ring, h, g);
    AwakeBoth(s.threads, t, s.current, b);
    var s1 := HandleOne(s);
    assert s1.ring == Take(s.ring) && s1.bufs == s.bufs[b := Buf(false, [])];
    assert Handle(s1) == s1;
    assert Handle(s) == s1;
  }

  /** The other thread, in a trap of this one. */
  ghost predicate OtherWaits(s: Sys, t: nat, b: nat, h: nat) {
    && t < |s.threads| && t != s.current && s.threads[t].pc == Parked(KDisk(b, h)) && !s.threads[t].lock
    && b < |s.bufs| && Alone(s.ring, h, b)
    && if s.threads[t].state == Ready then s.bufs[b] == Buf(false, []) && s.ring.chains[h].phase == Taken
       else && s.threads[t].state == Sleeping && s.threads[t].waiting == OnBuf(b) && s.bufs[b] == Buf(true, [t])
            && s.ring.chains[h].phase in {Queued, InDevice, Used}
  }

  lemma OtherRequest(s: Sys, t: nat, b: nat)
    requires SysInv(s) && At(s) && Cur(s).pc.Trap? && b < |s.bufs| && t < |s.threads| && Wants(s, t, b)
             && CanPost(s.ring)
    ensures OtherWaits(s, t, b, Request(s.threads[t].pc).1)
    ensures s.cpu == CpuState(2, true, false) && Cur(s).state == Running && Cur(s).lock && !s.diskLock && Sized(s.ring)
  {
    RingSized(s);
    var h := Request(s.threads[t].pc).1;
    assert DiskOk(s, t) && Idle(s.threads[t]);
    OnlyChain(s.ring, h);
  }

  lemma OnlyChain(r: Ring, h: nat)
    requires Inv(r) && CanPost(r) && h in r.chains
    ensures r.chains.Keys == {h}
  {
    assert CountFree(r.free) + 3 * |r.chains| == NUM;
    forall g | g in r.chains
      ensures g == h
    {
      if g != h { TwoKeys(r.chains, g, h); }
    }
  }

  lemma TwoKeys(m: map<nat, Chain>, g: nat, h: nat)
    requires g in m && h in m && g != h
    ensures |m| >= 2
  {
    assert {g, h} <= m.Keys;
    SubsetSize({g, h}, m.Keys);
  }

  /** A second request behind one that is alone. */
  lemma SubmitBehind(s: Sys, h: nat, b: nat, req: BlkReq)
    requires InSection(s, b, req) && Alone(s.ring, h, b)
    ensures var s', g := After(s, SUBMIT), NewChain(s);
            && AllGuarded(s, SUBMIT) && s'.current == s.current && s'.cpu == CpuState(0, true, true) && !s'.diskLock
            && s'.bufs == s.bufs[b := Buf(true, s.bufs[b].queue + [s.current])]
            && s'.threads == s.threads[s.current :=
                 Cur(s).(state := Sleeping, waiting := OnBuf(b), lock := false, pc := Unlocked(KDisk(b, g)))]
            && g != h && Inv(s'.ring) && s'.ring.chains.Keys == {h, g} && s'.ring.chains[h] == s.ring.chains[h]
            && s'.ring.chains[g].phase == Queued
  {
    PostInv(s.ring, b, req);
    var g := NewChain(s);
    PublishInv(Post(s.ring, b, req), g);
    hide Inv, Post, After, AllGuarded, CanPost;
    SubmitRuns(s, b, req);
    assert Publish(Post(s.ring, b, req), g).chains.Keys == {h, g};
  }

  /** A thread asleep at the end of its submission, the hart about to switch. */
  predicate JustSubmitted(s: Sys, b: nat, g: nat) {
    && At(s) && Cur(s).pc == Unlocked(KDisk(b, g)) && !Cur(s).lock && s.cpu == CpuState(0, true, true) && !s.diskLock
    && Cur(s).state == Sleeping && Cur(s).waiting == OnBuf(b) && b < |s.bufs|
  }

  /** The thread that was already woken comes back to a buffer made busy again:
      with interrupts off it waits for a flag only an interrupt clears. */
  lemma WokenFindsBusy(s: Sys, t: nat, b: nat, h: nat, g: nat)
    requires JustSubmitted(s, b, g) && s.bufs[b].disk && t < |s.threads| && t != s.current
    requires s.threads[t].state == Ready && !s.threads[t].lock && s.threads[t].pc == Parked(KDisk(b, h))
    ensures var events := [SchedSwitch] + [Dispatch(t), SchedReturn];
            AllGuarded(s, events) && !NeverSpinsOnDisk(After(s, events))
  {
    SwitchRuns(s, KDisk(b, g));
    var s2 := Perform(s, SchedSwitch);
    hide After, AllGuarded, Perform;
    BackRuns(s2, t, KDisk(b, h));
    OneMore(s, SchedSwitch, [Dispatch(t), SchedReturn]);
  }

  lemma WokenSpins(s: Sys, t: nat, b: nat, h: nat, req: BlkReq)
    requires OtherWaits(s, t, b, h) && s.threads[t].state == Ready && InSection(s, b, req)
    ensures exists events :: AllGuarded(s, events) && !NeverSpinsOnDisk(After(s, events))
  {
    hide After, AllGuarded, Alone, NeverSpinsOnDisk;
    SubmitBehind(s, h, b, req);
    WokenFindsBusy(After(s, SUBMIT), t, b, h, NewChain(s));
    var rest := [SchedSwitch] + [Dispatch(t), SchedReturn];
    Together(s, SUBMIT, rest);
    assert AllGuarded(s, SUBMIT + rest) && !NeverSpinsOnDisk(After(s, SUBMIT + rest));
  }

  /** Woken by the interrupt, the thread that submitted last runs on. */
  lemma ResumesEarly(s: Sys, c: nat, b: nat, g: nat)
    requires At(s) && s.current == c && Cur(s).pc == Unlocked(KDisk(b, g)) && Cur(s).state == Ready && !Cur(s).lock
    requires s.cpu.push == 0 && s.cpu.sie && !s.diskLock && b < |s.bufs| && !s.bufs[b].disk
    requires g in s.ring.chains && s.ring.chains[g].phase != Taken
    ensures var events := [SchedSwitch] + ([Dispatch(c), SchedReturn] + [ResumeDisk]);
            AllGuarded(s, events) && !ReclaimsTaken(After(s, events))
  {
    SwitchRuns(s, KDisk(b, g));
    var s3 := Perform(s, SchedSwitch);
    hide After, AllGuarded;
    BackRuns(s3, c, KDisk(b, g));
    var back := [Dispatch(c), SchedReturn];
    var s4 := After(s3, back);
    var s5 := Perform(s4, ResumeDisk);
    assert Cur(s5).pc == RwReclaim(b, g) && s5.ring == s.ring;
    hide Perform;
    assert [ResumeDisk] + [] == [ResumeDisk];
    OneMore(s4, ResumeDisk, []);
    Ended(s5);
    Together(s3, back, [ResumeDisk]);
    OneMore(s, SchedSwitch, back + [ResumeDisk]);
  }

  /** The first completion wakes both threads, and the second one frees its chain
      although the device still has it. */
  lemma WokenTogether(s: Sys, t: nat, b: nat, h: nat, g: nat)
    requires JustSubmitted(s, b, g) && t < |s.threads| && t != s.current && s.bufs[b].queue == [t, s.current]
    requires s.threads[t].state == Sleeping && s.threads[t].waiting == OnBuf(b)
    requires Inv(s.ring) && g != h && s.ring.chains.Keys == {h, g} && s.ring.chains[h].buf == b
    requires s.ring.chains[h].phase == Used && s.ring.chains[g].phase == Queued
    ensures var events := [KernelIntr] + ([SchedSwitch] + ([Dispatch(s.current), SchedReturn] + [ResumeDisk]));
            AllGuarded(s, events) && !ReclaimsTaken(After(s, events))
  {
    BothWoken(s, t, h, g, b);
    hide After, AllGuarded, Take, Inv, Perform, ReclaimsTaken;
    ResumesEarly(Perform(s, KernelIntr), s.current, b, g);
    OneMore(s, KernelIntr, [SchedSwitch] + ([Dispatch(s.current), SchedReturn] + [ResumeDisk]));
  }

  lemma ReclaimsNext(s: Sys, t: nat, b: nat, h: nat, req: BlkReq)
    requires InSection(s, b, req) && Alone(s.ring, h, b) && s.ring.chains[h].phase == Used
    requires t < |s.threads| && t != s.current && s.bufs[b] == Buf(true, [t])
    requires s.threads[t].state == Sleeping && s.threads[t].waiting == OnBuf(b)
    ensures exists events :: AllGuarded(s, events) && !ReclaimsTaken(After(s, events))
  {
    hide After, AllGuarded, ReclaimsTaken, CanPost, Inv;
    SubmitBehind(s, h, b, req);
    assert [t] + [s.current] == [t, s.current];
    WokenTogether(After(s, SUBMIT), t, b, h, NewChain(s));
    var rest := [KernelIntr] + ([SchedSwitch] + ([Dispatch(s.current), SchedReturn] + [ResumeDisk]));
    Together(s, SUBMIT, rest);
    assert AllGuarded(s, SUBMIT + rest) && !ReclaimsTaken(After(s, SUBMIT + rest));
  }

  lemma ReclaimsEarly(s: Sys, t: nat, b: nat, h: nat, req: BlkReq)
    requires OtherWaits(s, t, b, h) && s.threads[t].state == Sleeping && InSection(s, b, req)
    ensures exists events :: AllGuarded(s, events) && !ReclaimsTaken(After(s, events))
  {
    hide After, AllGuarded, ReclaimsTaken, CanPost, Inv;
    var dev := DeviceFinishes(s, h, b);
    RoomStays(After(s, dev), h, b);
    ReclaimsNext(After(s, dev), t, b, h, req);
    var events :| AllGuarded(After(s, dev), events) && !ReclaimsTaken(After(After(s, dev), events));
    Together(s, dev, events);
    assert AllGuarded(s, dev + events) && !ReclaimsTaken(After(s, dev + events));
  }

  lemma RoomStays(s: Sys, h: nat, b: nat)
    requires Alone(s.ring, h, b)
    ensures Sized(s.ring) && CanPost(s.ring)
  {
  }

  /** A request for a buffer that another thread is waiting for, when there are
      descriptors for it, leads to an unsafe state without any further one. */
  lemma SecondRequestUnsafe(s: Sys, t: nat, b: nat, req: BlkReq)
    requires SysInv(s) && CanDo(s, RwStart(b, req)) && CanPost(s.ring) && t < |s.threads| && Wants(s, t, b)
    ensures exists events :: var s' := Perform(s, RwStart(b, req)); AllGuarded(s', events) && !Safe(After(s', events))
  {
    OtherRequest(s, t, b);
    var h := Request(s.threads[t].pc).1;
    var s' := Perform(s, RwStart(b, req));
    assert s' == s.(threads := s.threads[s.current := Cur(s).(pc := RwLocked(b, req))], cpu := CpuState(3, true, false),
                    diskLock := true);
    hide After, AllGuarded, Alone, Perform, SysInv;
    if s.threads[t].state == Ready {
      WokenSpins(s', t, b, h, req);
      var events :| AllGuarded(s', events) && !NeverSpinsOnDisk(After(s', events));
      assert !Safe(After(s', events));
    } else {
      ReclaimsEarly(s', t, b, h, req);
      var events :| AllGuarded(s', events) && !ReclaimsTaken(After(s', events));
      assert !Safe(After(s', events));
    }
  }

  /** So a run stays safe, whatever follows, exactly when the request meets the
      guard. */
  lemma GuardIsExact(s: Sys, b: nat, req: BlkReq)
    requires SysInv(s) && CanDo(s, RwStart(b, req)) && CanPost(s.ring)
    ensures Guarded(s, RwStart(b, req))
            <==> forall events | AllGuarded(Perform(s, RwStart(b, req)), events) ::
                   Safe(After(Perform(s, RwStart(b, req)), events))
  {
    hide SysInv, Safe, After, AllGuarded, CanDo, Effect;
    var s' := Perform(s, RwStart(b, req));
    if Guarded(s, RwStart(b, req)) {
      StepOk(s, RwStart(b, req));
      forall events | AllGuarded(s', events)
        ensures Safe(After(s', events))
      {
        GuardedIsSafe(s', events);
        InvIsSafe(After(s', events));
      }
    } else {
      var t: nat :| t < |s.threads| && Wants(s, t, b);
      SecondRequestUnsafe(s, t, b, req);
    }
  }

  /** Freeing a chain that the device still has: when it is reported, no buffer is
      recorded for it, and the ring is out of order for good. */
  lemma EarlyReclaimBreaksRing(r: Ring, h: nat)
    requires Inv(r) && h in r.chains && h < NUM && r.chains[h].mid < NUM && r.chains[h].last < NUM
    requires r.chains[h].phase in {Queued, InDevice, Used}
    ensures Reclaim(r, h).info[h] == Nobody && !Inv(Reclaim(r, h))
  {
    var k, r' := r.chains[h].serial, Reclaim(r, h);
    assert PhaseOk(r, h);
    forall g | g in r'.chains
      ensures r'.chains[g].serial != k
    {
      assert Apart(r, g, h);
    }
    assert k < r'.s && k !in r'.done;
    assert !Accounted(r', k);
  }

  /* ---- a third request ---- */

  /** Posting under disk.lock goes through exactly while fewer than two requests
      are outstanding. */
  lemma PostNeedsRoom(s: Sys)
    requires Inv(s.ring) && At(s) && Cur(s).pc.RwLocked?
    ensures CanStep(s, RwPost) <==> |s.ring.chains| <= 1
  {
    var free := CountFree(s.ring.free);
    assert free + 3 * |s.ring.chains| == NUM;
  }

  /** Inside the locked section, with interrupts off and fewer than three
      descriptors free: the loop around alloc3_desc. */
  ghost predicate Stuck(s: Sys) {
    At(s) && Cur(s).pc.RwLocked? && s.cpu.push > 0 && Inv(s.ring) && !CanPost(s.ring)
  }

  /** Whatever happens next, the hart stays there with everything it holds. */
  lemma StaysStuck(s: Sys, e: Event)
    requires Stuck(s)
    ensures var s' := Perform(s, e); Stuck(s') && s' == s.(ring := s'.ring)
  {
    OnlyDevice(s, e);
    hide Inv, Effect, Presumed;
    RingSized(s);
    if e.DevConsume? && CanDo(s, e) {
      ConsumeEffect(s);
      ConsumeInv(s.ring);
    } else if e.DevComplete? && CanDo(s, e) {
      CompleteEffect(s, e.h);
      CompleteInv(s.ring, e.h);
    }
  }

  lemma OnlyDevice(s: Sys, e: Event)
    requires Stuck(s)
    ensures CanStep(s, e) ==> e.DevConsume? || e.DevComplete?
  {
    hide Inv;
  }

  /** The loop never ends: no sequence of events gives a descriptor back, and
      disk.lock is never released. */
  lemma {:induction false} HangsForever(s: Sys, events: seq<Event>)
    requires Stuck(s)
    ensures var s' := After(s, events);
            Stuck(s') && s'.current == s.current && s'.threads == s.threads && s'.diskLock == s.diskLock
    decreases |events|
  {
    hide Perform, Stuck;
    if events != [] {
      StaysStuck(s, events[0]);
      HangsForever(Perform(s, events[0]), events[1..]);
    }
  }

  /** Thread n is in a trap; the n threads before it wait for one buffer each, the
      others below m have never run; there are k buffers. */
  ghost predicate InTurn(s: Sys, n: nat, m: nat, k: nat) {
    && SysInv(s) && s.current == n && n < m <= |s.threads| && k == |s.bufs| && Cur(s).pc == Trap
    && |s.ring.chains| == n
    && (forall t: nat | t < n :: Wants(s, t, t))
    && (forall t: nat | n <= t < |s.threads| :: !HasRequest(s.threads[t].pc))
    && (forall t: nat | n < t < m :: s.threads[t] == Thread(Ready, false, NoWait, Fresh))
  }

  /** A thread runs for the first time and traps. */
  function Enters(t: nat): seq<Event> { [Dispatch(t), EnterUser, UserTrap] }

  lemma EnterRuns(s: Sys, t: nat)
    requires s.current == -1 && s.cpu.push == 0 && s.cpu.sie && t < |s.threads|
    requires s.threads[t] == Thread(Ready, false, NoWait, Fresh)
    ensures After(s, Enters(t))
         == s.(current := t, cpu := CpuState(2, true, false),
               threads := s.threads[t := Thread(Running, true, NoWait, Trap)])
    ensures AllGuarded(s, Enters(t))
  {
    hide After, AllGuarded;
    var s1 := Perform(s, Dispatch(t));
    assert s1 == s.(current := t, cpu := CpuState(1, true, false),
                    threads := s.threads[t := Thread(Running, true, NoWait, Fresh)]);
    var s2 := Perform(s1, EnterUser);
    assert s2 == s1.(threads := s1.threads[t := Thread(Running, true, NoWait, User)]);
    var s3 := Perform(s2, UserTrap);
    assert s3 == s2.(cpu := CpuState(2, true, false), threads := s2.threads[t := Thread(Running, true, NoWait, Trap)]);
    hide Perform;
    assert [Dispatch(t)] + ([EnterUser] + ([UserTrap] + [])) == Enters(t);
    OneMore(s, Dispatch(t), [EnterUser] + ([UserTrap] + []));
    OneMore(s1, EnterUser, [UserTrap] + []);
    OneMore(s2, UserTrap, []);
    Ended(s3);
  }

  /** Thread 0 runs, and forks the threads up to m. */
  function Forked(i: nat, m: nat): seq<Event>
    decreases m - i
  {
    if i >= m then [] else [TrapFork(i)] + Forked(i + 1, m)
  }

  function Forks(m: nat): seq<Event> { Enters(0) + Forked(1, m) }

  lemma {:induction false} ForkedRun(s: Sys, i: nat, m: nat)
    requires At(s) && s.current < i <= m <= |s.threads| && Cur(s).pc.Trap?
    requires forall t: nat | i <= t < m :: s.threads[t].state == Unused
    ensures AllGuarded(s, Forked(i, m))
    ensures var s' := After(s, Forked(i, m));
            && s' == s.(threads := s'.threads) && |s'.threads| == |s.threads|
            && forall t: nat | t < |s.threads| ::
                 s'.threads[t] == if i <= t < m then Thread(Ready, false, NoWait, Fresh) else s.threads[t]
    decreases m - i
  {
    hide After, AllGuarded, Perform;
    if i < m {
      ForkRuns(s, i);
      ForkedRun(Perform(s, TrapFork(i)), i + 1, m);
      OneMore(s, TrapFork(i), Forked(i + 1, m));
    } else {
      Ended(s);
    }
  }

  lemma ForksRun(threads: nat, bufs: nat, m: nat)
    requires 1 <= m <= threads
    ensures AllGuarded(Boot(threads, bufs), Forks(m)) && InTurn(After(Boot(threads, bufs), Forks(m)), 0, m, bufs)
  {
    var s := Boot(threads, bufs);
    BootOk(threads, bufs);
    hide After, AllGuarded, SysInv, Perform;
    EnterRuns(s, 0);
    ForkedRun(After(s, Enters(0)), 1, m);
    Together(s, Enters(0), Forked(1, m));
    GuardedIsSafe(s, Forks(m));
  }

  lemma ForkRuns(s: Sys, n: nat)
    requires At(s) && Cur(s).pc.Trap? && n < |s.threads| && s.threads[n].state == Unused
    ensures Perform(s, TrapFork(n)) == s.(threads := s.threads[n := Thread(Ready, false, NoWait, Fresh)])
  {
  }

  /** Thread n asks for buffer n and falls asleep; the next one runs. */
  function Asks(n: nat, req: BlkReq): seq<Event> {
    [RwStart(n, req)] + ((SUBMIT + [SchedSwitch]) + Enters(n + 1))
  }

  lemma TurnOk(s: Sys, n: nat, m: nat, k: nat)
    requires InTurn(s, n, m, k)
    ensures SysInv(s) && At(s) && s.current == n && m <= |s.threads|
  {
  }

  lemma StartInTurn(s: Sys, n: nat, m: nat, k: nat, req: BlkReq)
    requires InTurn(s, n, m, k) && n < k
    ensures CanDo(s, RwStart(n, req)) && Guarded(s, RwStart(n, req)) && SysInv(Perform(s, RwStart(n, req)))
    ensures var s' := Perform(s, RwStart(n, req));
            && s' == s.(threads := s.threads[n := Cur(s).(pc := RwLocked(n, req))], cpu := CpuState(3, true, false),
                        diskLock := true)
            && |s.ring.chains| == n && (n + 1 < m ==> s.threads[n + 1] == Thread(Ready, false, NoWait, Fresh))
  {
    assert Active(Cur(s), s.cpu);
    forall t: nat | t < |s.threads|
      ensures !Wants(s, t, n)
    {
      if t < n { assert Wants(s, t, t); }
    }
    hide SysInv;
    StepOk(s, RwStart(n, req));
  }

  /** A chain more. */
  lemma PostAddsChain(s: Sys, b: nat, req: BlkReq)
    requires SysInv(s) && At(s) && Cur(s).pc == RwLocked(b, req) && |s.ring.chains| <= 1
    ensures CanPost(s.ring) && Sized(s.ring) && b < |s.bufs|
    ensures var r := Post(s.ring, b, req);
            NewChain(s) in r.chains && |Publish(r, NewChain(s)).chains| == |s.ring.chains| + 1
  {
    PostNeedsRoom(s);
    hide Inv, ModeInv, LinkInv, CanPost;
    RingSized(s);
    RwBuffer(s);
    NobodyPosted(s);
    PostInv(s.ring, b, req);
    ChainCount(s.ring, b, req);
  }

  lemma ChainCount(r: Ring, b: nat, req: BlkReq)
    requires Sized(r)
    requires var (x, y, z) := Three(r.free);
             x !in r.chains && Post(r, b, req).chains == r.chains[x := Chain(y, z, b, req, r.s, Posted, 0)]
    ensures var g := Three(r.free).0;
            g in Post(r, b, req).chains && |Publish(Post(r, b, req), g).chains| == |r.chains| + 1
  {
    hide Post, Three;
    var r', g := Post(r, b, req), Three(r.free).0;
    assert r'.chains.Keys == r.chains.Keys + {g} && Publish(r', g).chains.Keys == r'.chains.Keys;
    assert |Publish(r', g).chains| == |Publish(r', g).chains.Keys| && |r.chains| == |r.chains.Keys|;
  }

  /** The state after thread n has fallen asleep and the next one has trapped. */
  lemma NextInTurn(s: Sys, s': Sys, n: nat, m: nat, k: nat, g: nat)
    requires InTurn(s, n, m, k) && n + 1 < m && SysInv(s') && s'.current == n + 1
    requires s'.threads == s.threads[n := Cur(s).(state := Sleeping, waiting := OnBuf(n), lock := false,
                                                  pc := Parked(KDisk(n, g)))]
                                    [n + 1 := Thread(Running, true, NoWait, Trap)]
    requires |s'.bufs| == |s.bufs| && |s'.ring.chains| == n + 1
    ensures InTurn(s', n + 1, m, k)
  {
    hide SysInv;
    forall t: nat | t < n + 1
      ensures Wants(s', t, t)
    {
      if t < n { assert Wants(s, t, t); }
    }
  }

  /** Its request goes on its way, and the hart is given up. */
  lemma AsleepRun(s: Sys, n: nat, req: BlkReq)
    requires SysInv(s) && At(s) && s.current == n && Cur(s).pc == RwLocked(n, req) && s.cpu == CpuState(3, true, false)
    requires s.diskLock && |s.ring.chains| <= 1
    ensures var s' := After(s, SUBMIT + [SchedSwitch]);
            && AllGuarded(s, SUBMIT + [SchedSwitch]) && s'.current == -1 && s'.cpu == CpuState(0, true, true)
            && s'.threads == s.threads[n :=
                 Cur(s).(state := Sleeping, waiting := OnBuf(n), lock := false, pc := Parked(KDisk(n, NewChain(s))))]
            && |s'.bufs| == |s.bufs| && |s'.ring.chains| == |s.ring.chains| + 1
  {
    hide SysInv, After, AllGuarded, CanPost, Post, Publish, NewChain, Sized, Perform;
    PostAddsChain(s, n, req);
    SubmitRuns(s, n, req);
    var s2 := After(s, SUBMIT);
    SwitchRuns(s2, KDisk(n, NewChain(s)));
    assert [SchedSwitch] + [] == [SchedSwitch];
    OneMore(s2, SchedSwitch, []);
    Ended(Perform(s2, SchedSwitch));
    Together(s, SUBMIT, [SchedSwitch]);
  }

  lemma AsksRun(s: Sys, n: nat, m: nat, k: nat, req: BlkReq)
    requires InTurn(s, n, m, k) && n < 2 && n + 1 < m && n < k
    ensures AllGuarded(s, Asks(n, req)) && InTurn(After(s, Asks(n, req)), n + 1, m, k)
  {
    hide SysInv, InTurn, After, AllGuarded, NewChain, CanDo, Perform, Guarded;
    TurnOk(s, n, m, k);
    StartInTurn(s, n, m, k, req);
    var s1 := Perform(s, RwStart(n, req));
    AsleepRun(s1, n, req);
    var s3 := After(s1, SUBMIT + [SchedSwitch]);
    EnterRuns(s3, n + 1);
    Together(s1, SUBMIT + [SchedSwitch], Enters(n + 1));
    OneMore(s, RwStart(n, req), (SUBMIT + [SchedSwitch]) + Enters(n + 1));
    GuardedIsSafe(s, Asks(n, req));
    NextInTurn(s, After(s, Asks(n, req)), n, m, k, NewChain(s1));
  }

  /** Three threads ask for three different buffers: the third one hangs the hart. */
  function ThreeAsk(r0: BlkReq, r1: BlkReq, r2: BlkReq): seq<Event> {
    Forks(3) + (Asks(0, r0) + (Asks(1, r1) + ([RwStart(2, r2)] + [])))
  }

  lemma ThirdRequestHangs(threads: nat, bufs: nat, r0: BlkReq, r1: BlkReq, r2: BlkReq, more: seq<Event>)
    requires threads >= 3 && bufs >= 3
    ensures AllGuarded(Boot(threads, bufs), ThreeAsk(r0, r1, r2))
    ensures var s := After(Boot(threads, bufs), ThreeAsk(r0, r1, r2));
            && Stuck(s) && s.current == 2 && s.diskLock
            && (var s' := After(s, more); Stuck(s') && s'.current == 2 && s'.threads == s.threads && s'.diskLock)
  {
    var s := Boot(threads, bufs);
    hide InTurn, After, AllGuarded, Stuck, Boot;
    ForksRun(threads, bufs, 3);
    var s1 := After(s, Forks(3));
    AsksRun(s1, 0, 3, bufs, r0);
    var s2 := After(s1, Asks(0, r0));
    AsksRun(s2, 1, 3, bufs, r1);
    var s3 := After(s2, Asks(1, r1));
    ThirdIsStuck(s3, bufs, r2);
    OneMore(s3, RwStart(2, r2), []);
    Ended(Perform(s3, RwStart(2, r2)));
    Together(s2, Asks(1, r1), [RwStart(2, r2)] + []);
    Together(s1, Asks(0, r0), Asks(1, r1) + ([RwStart(2, r2)] + []));
    Together(s, Forks(3), Asks(0, r0) + (Asks(1, r1) + ([RwStart(2, r2)] + [])));
    HangsForever(Perform(s3, RwStart(2, r2)), more);
  }

  lemma ThirdIsStuck(s: Sys, k: nat, req: BlkReq)
    requires InTurn(s, 2, 3, k) && k >= 3
    ensures var s' := Perform(s, RwStart(2, req));
            Guarded(s, RwStart(2, req)) && Stuck(s') && s'.current == 2 && s'.diskLock
  {
    StartInTurn(s, 2, 3, k, req);
    PostNeedsRoom(Perform(s, RwStart(2, req)));
  }

  /** One thread sleeps for buffer 0, and the other one is in its trap. */
  lemma OneAsleep(threads: nat, bufs: nat, req: BlkReq)
    requires threads >= 2 && bufs >= 1
    ensures var first := Forks(2) + Asks(0, req);
            AllGuarded(Boot(threads, bufs), first) && InTurn(After(Boot(threads, bufs), first), 1, 2, bufs)
  {
    var s := Boot(threads, bufs);
    hide After, AllGuarded, Boot, InTurn, Perform, Forks, Asks;
    ForksRun(threads, bufs, 2);
    AsksRun(After(s, Forks(2)), 0, 2, bufs, req);
    Together(s, Forks(2), Asks(0, req));
  }

  /** A run of the kernel that becomes unsafe: two threads ask for buffer 0. */
  lemma UnsafeRun(threads: nat, bufs: nat, r0: BlkReq, r1: BlkReq)
    requires threads >= 2 && bufs >= 1
    ensures exists events :: !Safe(After(Boot(threads, bufs), events))
  {
    hide *;
    var s, first, ask := Boot(threads, bufs), Forks(2) + Asks(0, r0), RwStart(0, r1);
    OneAsleep(threads, bufs, r0);
    var s' := After(s, first);
    OneWaits(s', bufs, r1);
    SecondRequestUnsafe(s', 0, 0, r1);
    var events :| AllGuarded(Perform(s', ask), events) && !Safe(After(Perform(s', ask), events));
    OneMore(s', ask, events);
    Together(s, first, [ask] + events);
  }

  lemma OneWaits(s: Sys, k: nat, req: BlkReq)
    requires InTurn(s, 1, 2, k) && k >= 1
    ensures SysInv(s) && CanDo(s, RwStart(0, req)) && CanPost(s.ring) && 0 < |s.threads| && Wants(s, 0, 0)
  {
    assert Wants(s, 0, 0) && Active(Cur(s), s.cpu);
    assert CountFree(s.ring.free) + 3 * |s.ring.chains| == NUM;
  }
}
