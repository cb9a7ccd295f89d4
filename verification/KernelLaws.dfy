/** Every step of the kernel keeps the invariant, and what that gives. */
module KernelLaws {
  import opened Interrupts
  import opened VirtioRing
  import opened VirtioLaws
  import opened Kernel

  predicate SameRequest(p: Pc, q: Pc) {
    HasRequest(p) == HasRequest(q) && (HasRequest(p) ==> Request(p) == Request(q))
  }

  /** Steps that give nobody a new request and touch no buffer. */
  lemma LinkKeep(s: Sys, s': Sys)
    requires LinkInv(s) && |s'.threads| == |s.threads| && s'.bufs == s.bufs
    requires s'.ring.chains.Keys == s.ring.chains.Keys
    requires forall t: nat {:trigger DiskOk(s', t)} | t < |s.threads| :: DiskOk(s', t)
    requires forall t: nat | t < |s.threads| :: SameRequest(s.threads[t].pc, s'.threads[t].pc)
    requires LockedBuf(s')
    ensures LinkInv(s')
  {
    forall t: nat, u: nat | t < |s'.threads| && u < |s'.threads|
      ensures OwnRequest(s', t, u)
    {
      assert OwnRequest(s, t, u);
    }
    forall b: nat | b < |s'.bufs|
      ensures BufOk(s', b)
    {
      assert BufOk(s, b);
      if s.bufs[b] != Buf(false, []) {
        var t: nat :| t < |s.threads| && Wants(s, t, b);
        assert Wants(s', t, b);
      }
    }
    forall h | h in s'.ring.chains
      ensures ChainOwned(s', h)
    {
      assert ChainOwned(s, h);
      var t: nat :| t < |s.threads| && HasRequest(s.threads[t].pc) && Request(s.threads[t].pc).1 == h;
      assert HasRequest(s'.threads[t].pc) && Request(s'.threads[t].pc).1 == h;
    }
  }

  lemma LockedKeep(s: Sys, s': Sys)
    requires LockedBuf(s) && s'.current == s.current && |s'.threads| == |s.threads| && s'.bufs == s.bufs
    requires forall t: nat | t < |s.threads| :: s'.threads[t].pc == s.threads[t].pc
    ensures LockedBuf(s')
  {
    forall t: nat, b: nat | t < |s.threads|
      ensures Wants(s', t, b) == Wants(s, t, b)
    {
    }
  }

  /** The current thread moves on and gives nobody a new request. */
  function Moved(s: Sys, th: Thread, cpu: CpuState, diskLock: bool, leaves: bool): Sys
    requires At(s)
  {
    s.(threads := s.threads[s.current := th], cpu := cpu, diskLock := diskLock,
       current := if leaves then -1 else s.current)
  }

  lemma MoveKeeps(s: Sys, th: Thread, cpu: CpuState, diskLock: bool, leaves: bool)
    requires SysInv(s) && At(s) && SameRequest(Cur(s).pc, th.pc)
    requires if leaves then Idle(th) && cpu.push == 0 && cpu.sie && !diskLock
             else Active(th, cpu) && diskLock == HoldsDiskLock(th.pc)
    requires DiskOk(Moved(s, th, cpu, diskLock, leaves), s.current)
    requires LockedBuf(Moved(s, th, cpu, diskLock, leaves))
    ensures SysInv(Moved(s, th, cpu, diskLock, leaves))
  {
    var s' := Moved(s, th, cpu, diskLock, leaves);
    forall t: nat | t < |s'.threads| && t != s'.current
      ensures Idle(s'.threads[t])
    {
      if t != s.current { assert Idle(s.threads[t]); }
    }
    forall t: nat | t < |s'.threads|
      ensures DiskOk(s', t)
    {
      if t != s.current { assert DiskOk(s, t); }
    }
    LinkKeep(s, s');
  }

  lemma ToUserOk(s: Sys)
    requires SysInv(s) && At(s) && Cur(s).pc.Fresh?
    ensures s.cpu.push == 1 && SysInv(ToUser(s))
  {
    MoveKeeps(s, Cur(s).(pc := User), s.cpu, s.diskLock, false);
  }

  lemma UserTrapOk(s: Sys)
    requires SysInv(s) && At(s) && Cur(s).pc.User?
    ensures UserTrapStep(s).cpu.push == 2 && SysInv(UserTrapStep(s))
  {
    MoveKeeps(s, Cur(s).(pc := Trap), Push(s.cpu.(sie := false)), s.diskLock, false);
  }

  /** return_to_user and the return from sched reach entry_to_user with count 1. */
  lemma PopToUserOk(s: Sys)
    requires SysInv(s) && At(s) && (Cur(s).pc.Trap? || Cur(s).pc == Resumed(KTrap))
    ensures s.cpu.push == 2 && Pop(s.cpu).push == 1 && SysInv(PopToUser(s))
  {
    MoveKeeps(s, Cur(s).(pc := User), Pop(s.cpu), s.diskLock, false);
  }

  lemma YieldOk(s: Sys)
    requires SysInv(s) && At(s) && Cur(s).pc.Trap?
    ensures SysInv(YieldStep(s))
  {
    MoveKeeps(s, Cur(s).(state := Ready, pc := Calling(KTrap)), s.cpu, s.diskLock, false);
  }

  lemma WaitOk(s: Sys)
    requires SysInv(s) && At(s) && Cur(s).pc.Trap?
    ensures SysInv(WaitStep(s))
  {
    MoveKeeps(s, Cur(s).(state := Sleeping, waiting := OnChild, pc := Calling(KChild)), s.cpu, s.diskLock, false);
  }

  lemma RwStartOk(s: Sys, b: nat, req: BlkReq)
    requires SysInv(s) && At(s) && Cur(s).pc.Trap? && b < |s.bufs|
    requires forall t: nat | t < |s.threads| :: !Wants(s, t, b)
    ensures !s.diskLock && SysInv(RwStartStep(s, b, req))
  {
    var s' := RwStartStep(s, b, req);
    assert BufOk(s, b);
    forall t: nat | t < |s'.threads|
      ensures !Wants(s', t, b)
    {
      assert !Wants(s, t, b);
    }
    MoveKeeps(s, Cur(s).(pc := RwLocked(b, req)), Push(s.cpu), true, false);
  }

  lemma RwUnlockOk(s: Sys)
    requires SysInv(s) && At(s) && Cur(s).pc.RwPublished?
    ensures s.cpu.push == 3 && SysInv(RwUnlockStep(s))
  {
    var pc := Cur(s).pc;
    assert DiskOk(s, s.current);
    MoveKeeps(s, Cur(s).(pc := RwWait(pc.b, pc.h)), Pop(s.cpu), false, false);
  }

  /** `sched` never finds a nesting count other than 0 after its two pops. */
  lemma SchedUnlockOk(s: Sys)
    requires SysInv(s) && At(s) && Cur(s).pc.Calling?
    ensures s.cpu.push == 2 && SchedUnlockStep(s).cpu.push == 0 && SchedUnlockStep(s).cpu.sie
    ensures SysInv(SchedUnlockStep(s))
  {
    assert DiskOk(s, s.current);
    MoveKeeps(s, Cur(s).(lock := false, pc := Unlocked(Cur(s).pc.k)), Pop(Pop(s.cpu)), s.diskLock, false);
  }

  lemma SchedSwitchOk(s: Sys)
    requires SysInv(s) && At(s) && Cur(s).pc.Unlocked?
    ensures SysInv(SchedSwitchStep(s)) && SchedSwitchStep(s).cpu.push == 0
  {
    assert DiskOk(s, s.current);
    MoveKeeps(s, Cur(s).(pc := Parked(Cur(s).pc.k)), s.cpu, s.diskLock, true);
  }

  lemma SchedReturnOk(s: Sys)
    requires SysInv(s) && At(s) && Cur(s).pc.Back?
    ensures s.cpu.push == 1 && SysInv(SchedReturnStep(s))
  {
    assert DiskOk(s, s.current);
    MoveKeeps(s, Cur(s).(pc := Resumed(Cur(s).pc.k)), Push(s.cpu), s.diskLock, false);
  }

  lemma ResumeChildOk(s: Sys)
    requires SysInv(s) && At(s) && Cur(s).pc == Resumed(KChild)
    ensures SysInv(ResumeChildStep(s))
  {
    MoveKeeps(s, Cur(s).(pc := Trap), s.cpu, s.diskLock, false);
  }

  /** A thread that comes back from its disk sleep does not spin: the buffer is
      no longer busy and disk.lock is free. */
  lemma ResumeDiskOk(s: Sys)
    requires SysInv(s) && At(s) && Cur(s).pc.Resumed? && Cur(s).pc.k.KDisk?
    ensures var b := Cur(s).pc.k.b; b < |s.bufs| && !s.bufs[b].disk
    ensures !s.diskLock && SysInv(ResumeDiskStep(s))
  {
    assert DiskOk(s, s.current);
    MoveKeeps(s, Cur(s).(pc := RwReclaim(Cur(s).pc.k.b, Cur(s).pc.k.h)), Push(s.cpu), true, false);
  }

  /* ---- steps that touch other threads ---- */

  lemma WakeOk(s: Sys, woken: set<nat>)
    requires SysInv(s)
    ensures SysInv(s.(threads := WakeWaiters(s.threads, woken)))
    ensures At(s) && s.threads[s.current].pc.Trap?
            ==> WakeWaiters(s.threads, woken)[s.current] == s.threads[s.current]
  {
    hide Inv;
    var s' := s.(threads := WakeWaiters(s.threads, woken));
    forall t: nat | t < |s'.threads| && t != s'.current
      ensures Idle(s'.threads[t])
    {
      assert Idle(s.threads[t]);
    }
    forall t: nat | t < |s'.threads|
      ensures DiskOk(s', t)
    {
      assert DiskOk(s, t);
      if t != s.current { assert Idle(s.threads[t]); }
    }
    LockedKeep(s, s');
    LinkKeep(s, s');
  }

  lemma ExitOk(s: Sys, woken: set<nat>)
    requires SysInv(s) && At(s) && Cur(s).pc.Trap?
    ensures SysInv(ExitStep(s, woken))
  {
    WakeOk(s, woken);
    var s1 := s.(threads := WakeWaiters(s.threads, woken));
    MoveKeeps(s1, Cur(s1).(state := Unused, pc := Calling(KDead)), s1.cpu, s1.diskLock, false);
  }

  lemma ForkOk(s: Sys, n: nat)
    requires SysInv(s) && At(s) && Cur(s).pc.Trap? && n < |s.threads| && s.threads[n].state == Unused
    ensures SysInv(ForkStep(s, n))
  {
    var s' := ForkStep(s, n);
    assert Idle(s.threads[n]);
    forall t: nat | t < |s'.threads| && t != s'.current
      ensures Idle(s'.threads[t])
    {
      assert Idle(s.threads[t]);
    }
    forall t: nat | t < |s'.threads|
      ensures DiskOk(s', t)
    {
      assert DiskOk(s, t);
    }
    LinkKeep(s, s');
  }

  /** The scheduler finds every lock free, dispatches ready threads only, and
      stands at count 0 between rounds and 1 at the switch. */
  lemma DispatchOk(s: Sys, t: nat)
    requires SysInv(s) && s.current == -1 && t < |s.threads|
    ensures s.cpu.push == 0 && !s.threads[t].lock && SysInv(DispatchStep(s, t))
    ensures DispatchStep(s, t).current == t ==> s.threads[t].state == Ready && DispatchStep(s, t).cpu.push == 1
    ensures DispatchStep(s, t).current != t ==>
              DispatchStep(s, t).threads == s.threads && DispatchStep(s, t).cpu.push == 0
  {
    var s' := DispatchStep(s, t);
    assert Idle(s.threads[t]);
    forall u: nat | u < |s'.threads| && u != s'.current
      ensures Idle(s'.threads[u])
    {
      assert Idle(s.threads[u]);
    }
    forall u: nat | u < |s'.threads|
      ensures DiskOk(s', u)
    {
      assert DiskOk(s, u);
    }
    LinkKeep(s, s');
  }

  /* ---- steps of a disk request ---- */

  /** Only the thread inside the locked section can have a posted chain. */
  lemma NobodyPosted(s: Sys)
    requires SysInv(s) && At(s) && Cur(s).pc.RwLocked?
    ensures NoPosted(s.ring)
  {
    forall h | h in s.ring.chains
      ensures s.ring.chains[h].phase != Posted
    {
      assert ChainOwned(s, h);
      var t: nat :| t < |s.threads| && HasRequest(s.threads[t].pc) && Request(s.threads[t].pc).1 == h;
      assert DiskOk(s, t) && Idle(s.threads[t]);
    }
  }

  lemma RwPostOk(s: Sys)
    requires SysInv(s) && At(s) && Cur(s).pc.RwLocked? && CanPost(s.ring)
    ensures Cur(s).pc.b < |s.bufs| && SysInv(RwPostStep(s))
  {
    NobodyPosted(s);
    PostInv(s.ring, Cur(s).pc.b, Cur(s).pc.req);
    RwPostLinks(s);
    RwPostThreads(s);
  }

  lemma RwPostThreads(s: Sys)
    requires ModeInv(s) && LinkInv(s) && Sized(s.ring) && At(s) && Cur(s).pc.RwLocked? && Cur(s).pc.b < |s.bufs|
    requires var (a, m, l) := Three(s.ring.free);
             && a !in s.ring.chains
             && Post(s.ring, Cur(s).pc.b, Cur(s).pc.req).chains
                == s.ring.chains[a := Chain(m, l, Cur(s).pc.b, Cur(s).pc.req, s.ring.s, Posted, 0)]
    ensures var s' := RwPostStep(s);
            ModeInv(s') && LockedBuf(s') && forall t: nat {:trigger DiskOk(s', t)} | t < |s'.threads| :: DiskOk(s', t)
  {
    hide Post, Three;
    var s', b, c := RwPostStep(s), Cur(s).pc.b, s.current;
    forall t: nat | t < |s'.threads| && t != c
      ensures Idle(s'.threads[t]) && DiskOk(s', t)
    {
      assert Idle(s.threads[t]) && DiskOk(s, t) && !Wants(s, t, b);
    }
    assert DiskOk(s', c);
  }

  lemma RwPostLinks(s: Sys)
    requires SysInv(s) && At(s) && Cur(s).pc.RwLocked? && Cur(s).pc.b < |s.bufs|
    requires Three(s.ring.free).0 !in s.ring.chains
    requires RwPostStep(s).ring.chains.Keys == s.ring.chains.Keys + {Three(s.ring.free).0}
    ensures var s' := RwPostStep(s);
            && (forall t: nat, u: nat {:trigger OwnRequest(s', t, u)} | t < |s'.threads| && u < |s'.threads| ::
                OwnRequest(s', t, u))
            && (forall b: nat {:trigger BufOk(s', b)} | b < |s'.bufs| :: BufOk(s', b))
            && (forall h {:trigger ChainOwned(s', h)} | h in s'.ring.chains :: ChainOwned(s', h))
  {
    hide Queues, Counters, Placed, VirtioRing.Disjoint, Owned, ModeInv, DiskOk;
    var s' := RwPostStep(s);
    var b, c := Cur(s).pc.b, s.current;
    RwPostRequests(s);
    RwPostChains(s);
    assert Wants(s', c, b);
    forall d: nat | d < |s'.bufs|
      ensures BufOk(s', d)
    {
      assert BufOk(s, d);
      if d != b && s.bufs[d] != Buf(false, []) {
        var t: nat :| t < |s.threads| && Wants(s, t, d);
        assert Wants(s', t, d);
      }
    }
  }

  lemma RwPostRequests(s: Sys)
    requires SysInv(s) && At(s) && Cur(s).pc.RwLocked? && Cur(s).pc.b < |s.bufs|
    requires Three(s.ring.free).0 !in s.ring.chains
    requires RwPostStep(s).ring.chains.Keys == s.ring.chains.Keys + {Three(s.ring.free).0}
    ensures var s' := RwPostStep(s);
            forall t: nat, u: nat {:trigger OwnRequest(s', t, u)} | t < |s'.threads| && u < |s'.threads| ::
              OwnRequest(s', t, u)
  {
    hide Queues, Placed, VirtioRing.Disjoint, Owned;
    var s', b := RwPostStep(s), Cur(s).pc.b;
    forall t: nat, u: nat | t < |s'.threads| && u < |s'.threads|
      ensures OwnRequest(s', t, u)
    {
      assert OwnRequest(s, t, u) && DiskOk(s, t) && DiskOk(s, u) && !Wants(s, t, b) && !Wants(s, u, b);
    }
  }

  lemma RwPostChains(s: Sys)
    requires SysInv(s) && At(s) && Cur(s).pc.RwLocked? && Cur(s).pc.b < |s.bufs|
    requires Three(s.ring.free).0 !in s.ring.chains
    requires RwPostStep(s).ring.chains.Keys == s.ring.chains.Keys + {Three(s.ring.free).0}
    ensures var s' := RwPostStep(s);
            forall h {:trigger ChainOwned(s', h)} | h in s'.ring.chains :: ChainOwned(s', h)
  {
    hide Queues, Placed, VirtioRing.Disjoint, Owned, ModeInv, DiskOk;
    var s', c, a := RwPostStep(s), s.current, Three(s.ring.free).0;
    forall h | h in s'.ring.chains
      ensures ChainOwned(s', h)
    {
      if h != a {
        assert ChainOwned(s, h);
        var t: nat :| t < |s.threads| && HasRequest(s.threads[t].pc) && Request(s.threads[t].pc).1 == h;
        assert HasRequest(s'.threads[t].pc) && Request(s'.threads[t].pc).1 == h;
      } else {
        assert HasRequest(s'.threads[c].pc) && Request(s'.threads[c].pc).1 == a;
      }
    }
  }

  /** A step that moves one request along its phases. */
  lemma PhaseMove(s: Sys, s': Sys, h: nat, owner: nat)
    requires LinkInv(s) && s'.bufs == s.bufs && |s'.threads| == |s.threads|
    requires h in s.ring.chains && s'.ring.chains.Keys == s.ring.chains.Keys
    requires s'.ring.chains[h].buf == s.ring.chains[h].buf
    requires forall g | g in s.ring.chains && g != h :: s'.ring.chains[g] == s.ring.chains[g]
    requires owner < |s.threads| && HasRequest(s.threads[owner].pc) && Request(s.threads[owner].pc).1 == h
    requires forall t: nat | t < |s.threads| && t != owner :: s'.threads[t] == s.threads[t]
    requires SameRequest(s.threads[owner].pc, s'.threads[owner].pc) && DiskOk(s', owner)
    requires LockedBuf(s')
    ensures LinkInv(s')
  {
    forall t: nat | t < |s'.threads|
      ensures DiskOk(s', t)
    {
      assert DiskOk(s, t) && OwnRequest(s, t, owner);
    }
    LinkKeep(s, s');
  }

  lemma RwPublishOk(s: Sys)
    requires SysInv(s) && At(s) && Cur(s).pc.RwPosted?
    ensures Cur(s).pc.h in s.ring.chains && s.ring.chains[Cur(s).pc.h].phase == Posted
    ensures SysInv(RwPublishStep(s))
  {
    var c := s.current;
    assert DiskOk(s, c);
    var s' := RwPublishStep(s);
    PublishInv(s.ring, Cur(s).pc.h);
    forall t: nat | t < |s'.threads| && t != c
      ensures Idle(s'.threads[t])
    {
      assert Idle(s.threads[t]);
    }
    PhaseMove(s, s', Cur(s).pc.h, c);
  }

  /** The thread falls asleep only after its node is queued and with its request
      still on the way. */
  lemma RwSleepOk(s: Sys)
    requires SysInv(s) && At(s) && Cur(s).pc.RwWait?
    ensures Cur(s).pc.b < |s.bufs| && SysInv(RwSleepStep(s))
  {
    var c := s.current;
    assert DiskOk(s, c);
    var b := Cur(s).pc.b;
    var s' := RwSleepStep(s);
    forall t: nat | t < |s'.threads| && t != c
      ensures Idle(s'.threads[t]) && DiskOk(s', t)
    {
      assert Idle(s.threads[t]) && DiskOk(s, t) && OwnRequest(s, t, c);
    }
    OneBuffer(s, s', b, c);
  }

  /** A step that changes one buffer, whose request keeps its owner. */
  lemma OneBuffer(s: Sys, s': Sys, b: nat, owner: nat)
    requires LinkInv(s) && |s'.threads| == |s.threads| && b < |s.bufs| && |s'.bufs| == |s.bufs|
    requires forall d: nat | d < |s.bufs| && d != b :: s'.bufs[d] == s.bufs[d]
    requires s'.ring.chains.Keys == s.ring.chains.Keys
    requires forall t: nat | t < |s.threads| :: SameRequest(s.threads[t].pc, s'.threads[t].pc)
    requires owner < |s.threads| && Wants(s, owner, b)
    ensures forall t: nat, u: nat {:trigger OwnRequest(s', t, u)} | t < |s'.threads| && u < |s'.threads| ::
            OwnRequest(s', t, u)
    ensures forall d: nat {:trigger BufOk(s', d)} | d < |s'.bufs| :: BufOk(s', d)
    ensures forall h {:trigger ChainOwned(s', h)} | h in s'.ring.chains :: ChainOwned(s', h)
  {
    forall t: nat, u: nat | t < |s'.threads| && u < |s'.threads|
      ensures OwnRequest(s', t, u)
    {
      assert OwnRequest(s, t, u);
    }
    assert Wants(s', owner, b);
    forall d: nat | d < |s'.bufs|
      ensures BufOk(s', d)
    {
      assert BufOk(s, d);
      if d != b && s.bufs[d] != Buf(false, []) {
        var t: nat :| t < |s.threads| && Wants(s, t, d);
        assert Wants(s', t, d);
      }
    }
    forall h | h in s'.ring.chains
      ensures ChainOwned(s', h)
    {
      assert ChainOwned(s, h);
      var t: nat :| t < |s.threads| && HasRequest(s.threads[t].pc) && Request(s.threads[t].pc).1 == h;
      assert HasRequest(s'.threads[t].pc) && Request(s'.threads[t].pc).1 == h;
    }
  }

  lemma RwFinishOk(s: Sys)
    requires SysInv(s) && At(s) && Cur(s).pc.RwReclaim?
    ensures Cur(s).pc.h in s.ring.chains && Placed(s.ring, Cur(s).pc.h) && s.cpu.push == 3
    ensures SysInv(RwFinishStep(s))
  {
    var c, h := s.current, Cur(s).pc.h;
    assert DiskOk(s, c);
    ReclaimInv(s.ring, h);
    var s' := RwFinishStep(s);
    forall t: nat | t < |s'.threads| && t != c
      ensures Idle(s'.threads[t]) && DiskOk(s', t)
    {
      assert Idle(s.threads[t]) && DiskOk(s, t) && OwnRequest(s, t, c);
    }
    DropRequest(s, s', c);
  }

  /** A thread gives up its request; the others keep theirs. */
  lemma DropRequest(s: Sys, s': Sys, c: nat)
    requires LinkInv(s) && |s'.threads| == |s.threads| && s'.bufs == s.bufs && c < |s.threads|
    requires HasRequest(s.threads[c].pc) && !HasRequest(s'.threads[c].pc)
    requires Request(s.threads[c].pc).0 < |s.bufs| && s.bufs[Request(s.threads[c].pc).0] == Buf(false, [])
    requires s'.ring.chains.Keys == s.ring.chains.Keys - {Request(s.threads[c].pc).1}
    requires forall t: nat | t < |s.threads| && t != c :: s'.threads[t] == s.threads[t]
    ensures forall t: nat, u: nat {:trigger OwnRequest(s', t, u)} | t < |s'.threads| && u < |s'.threads| ::
            OwnRequest(s', t, u)
    ensures forall d: nat {:trigger BufOk(s', d)} | d < |s'.bufs| :: BufOk(s', d)
    ensures forall h {:trigger ChainOwned(s', h)} | h in s'.ring.chains :: ChainOwned(s', h)
  {
    forall t: nat, u: nat | t < |s'.threads| && u < |s'.threads|
      ensures OwnRequest(s', t, u)
    {
      assert OwnRequest(s, t, u);
    }
    forall d: nat | d < |s'.bufs|
      ensures BufOk(s', d)
    {
      assert BufOk(s, d);
      if s.bufs[d] != Buf(false, []) {
        var t: nat :| t < |s.threads| && Wants(s, t, d);
        assert Wants(s', t, d);
      }
    }
    forall g | g in s'.ring.chains
      ensures ChainOwned(s', g)
    {
      assert ChainOwned(s, g);
      var t: nat :| t < |s.threads| && HasRequest(s.threads[t].pc) && Request(s.threads[t].pc).1 == g;
      assert HasRequest(s'.threads[t].pc) && Request(s'.threads[t].pc).1 == g;
    }
  }

  /* ---- the device ---- */

  lemma DeviceStep(s: Sys, ring: Ring, h: nat, phase: Phase)
    requires SysInv(s) && Inv(ring) && h in s.ring.chains && h in ring.chains
    requires ring.chains == s.ring.chains[h := ring.chains[h]] && ring.chains[h].buf == s.ring.chains[h].buf
    requires s.ring.chains[h].phase in {Queued, InDevice} && ring.chains[h].phase in {InDevice, Used}
    ensures SysInv(s.(ring := ring))
  {
    var s' := s.(ring := ring);
    assert ChainOwned(s, h);
    var t: nat :| t < |s.threads| && HasRequest(s.threads[t].pc) && Request(s.threads[t].pc).1 == h;
    assert DiskOk(s, t);
    LockedKeep(s, s');
    PhaseMove(s, s', h, t);
  }

  lemma DevConsumeOk(s: Sys)
    requires SysInv(s)
    ensures SysInv(s.(ring := Consume(s.ring)))
  {
    ConsumeInv(s.ring);
    if s.ring.c < s.ring.s {
      var h := s.ring.availRing[s.ring.devSeen % NUM];
      assert AvailSlot(s.ring, s.ring.c) && PhaseOk(s.ring, h);
      DeviceStep(s, Consume(s.ring), h, InDevice);
    } else {
      assert s.(ring := Consume(s.ring)) == s;
    }
  }

  lemma DevCompleteOk(s: Sys, h: nat)
    requires SysInv(s) && h in s.ring.chains && s.ring.chains[h].phase == InDevice
    ensures SysInv(s.(ring := Complete(s.ring, h)))
  {
    CompleteInv(s.ring, h);
    DeviceStep(s, Complete(s.ring, h), h, Used);
  }

  /* ---- the interrupt ---- */

  /** Where a disk interrupt can be taken: in the scheduler, in `sched` after the
      locks are released, or out of user mode (already in usertrap). */
  predicate Interruptible(s: Sys) {
    s.current == -1 || (At(s) && (Cur(s).pc.Unlocked? || Cur(s).pc.Trap?))
  }

  /** The thread behind a reported request is asleep on its buffer, alone in the
      queue, its lock free; and disk.lock is free. So no acquire in the handler
      waits. */
  lemma HandlerNeverSpins(s: Sys) returns (t: nat)
    requires SysInv(s) && Interruptible(s) && s.ring.seen != s.ring.usedIdx
    ensures !s.diskLock
    ensures var h := s.ring.usedRing[s.ring.seen % NUM];
            && h in s.ring.chains && s.ring.chains[h].phase == Used
            && (var b := s.ring.chains[h].buf;
                && b < |s.bufs| && s.bufs[b] == Buf(true, [t]) && t < |s.threads|
                && HasRequest(s.threads[t].pc) && Request(s.threads[t].pc) == (b, h)
                && s.threads[t].state == Sleeping && s.threads[t].waiting == OnBuf(b) && !s.threads[t].lock)
    ensures (s.threads[t].pc.Parked? && t != s.current) || (s.threads[t].pc.Unlocked? && t == s.current)
  {
    TakeInv(s.ring);
    var h := s.ring.usedRing[s.ring.seen % NUM];
    hide Inv, Queues, Structure, LockedBuf, BufOk;
    assert ChainOwned(s, h);
    t :| t < |s.threads| && HasRequest(s.threads[t].pc) && Request(s.threads[t].pc).1 == h;
    assert DiskOk(s, t);
    if t != s.current { assert Idle(s.threads[t]); }
  }

  lemma RingSized(s: Sys)
    requires Inv(s.ring)
    ensures Sized(s.ring)
  {
  }

  lemma AwakeOne(threads: seq<Thread>, t: nat, b: nat)
    requires t < |threads| && threads[t].waiting == OnBuf(b) && threads[t].state == Sleeping
    ensures AwakeAll(threads, [t], b) == threads[t := threads[t].(state := Ready)]
  {
    var woken := threads[t := threads[t].(state := Ready)];
    assert [t][1..] == [];
    assert AwakeAll(woken, [], b) == woken;
  }

  /** One completion: the sleeping thread becomes ready, its buffer is released
      and nothing else changes. */
  lemma HandleOneOk(s: Sys) returns (t: nat)
    requires SysInv(s) && Interruptible(s) && s.ring.seen != s.ring.usedIdx
    ensures SysInv(HandleOne(s)) && Interruptible(HandleOne(s)) && HandleOne(s).current == s.current
    ensures t < |s.threads| && s.threads[t].state == Sleeping
    ensures HandleOne(s).threads == s.threads[t := s.threads[t].(state := Ready)]
    ensures HandleOne(s).cpu == s.cpu && HandleOne(s).diskLock == s.diskLock
    ensures HandleOne(s).ring == Take(s.ring)
  {
    t := HandlerNeverSpins(s);
    var h := s.ring.usedRing[s.ring.seen % NUM];
    var b := s.ring.chains[h].buf;
    AwakeOne(s.threads, t, b);
    TakeInv(s.ring);
    var s' := HandleOne(s);
    assert s'.bufs == s.bufs[b := Buf(false, [])];
    assert s'.ring.chains == s.ring.chains[h := s.ring.chains[h].(phase := Taken)];
    hide Inv, LinkInv, HandleOne;
    forall u: nat | u < |s'.threads|
      ensures DiskOk(s', u)
      ensures u != s'.current ==> Idle(s'.threads[u])
    {
      HandledThread(s, s', t, h, b, u);
    }
    HandledLinks(s, s', t, b);
  }

  lemma HandledThread(s: Sys, s': Sys, t: nat, h: nat, b: nat, u: nat)
    requires ModeInv(s) && LinkInv(s) && t < |s.threads| && u < |s.threads| && b < |s.bufs| && h in s.ring.chains
    requires s.threads[t].state == Sleeping && HasRequest(s.threads[t].pc) && Request(s.threads[t].pc) == (b, h)
    requires s.threads[t].pc.Parked? || s.threads[t].pc.Unlocked?
    requires s'.current == s.current && s'.threads == s.threads[t := s.threads[t].(state := Ready)]
    requires s'.bufs == s.bufs[b := Buf(false, [])]
    requires s'.ring.chains == s.ring.chains[h := s.ring.chains[h].(phase := Taken)]
    ensures DiskOk(s', u) && (u != s'.current ==> Idle(s'.threads[u]))
  {
    assert DiskOk(s, u) && DiskOk(s, t) && OwnRequest(s, u, t);
    if u != s.current { assert Idle(s.threads[u]); }
  }

  lemma HandledLinks(s: Sys, s': Sys, t: nat, b: nat)
    requires ModeInv(s) && LinkInv(s) && t < |s.threads| && b < |s.bufs| && Wants(s, t, b)
    requires Interruptible(s) && s'.current == s.current && s'.threads == s.threads[t := s.threads[t].(state := Ready)]
    requires s'.bufs == s.bufs[b := Buf(false, [])] && s'.ring.chains.Keys == s.ring.chains.Keys
    requires forall u: nat | u < |s.threads| :: DiskOk(s', u)
    ensures LinkInv(s')
  {
    OneBuffer(s, s', b, t);
  }

  lemma NothingReported(r: Ring, h: nat)
    requires Inv(r) && r.seen == r.usedIdx && h in r.chains
    ensures r.chains[h].phase != Used
  {
    TakeInv(r);
    assert PhaseOk(r, h);
  }

  lemma {:induction false} HandleOk(s: Sys)
    requires SysInv(s) && Interruptible(s)
    ensures SysInv(Handle(s)) && Handle(s).ring.seen == Handle(s).ring.usedIdx
    ensures Handle(s).current == s.current && Handle(s).cpu == s.cpu && |Handle(s).threads| == |s.threads|
    ensures forall t: nat | t < |s.threads| ::
              Handle(s).threads[t] == s.threads[t]
              || (s.threads[t].state == Sleeping && Handle(s).threads[t] == s.threads[t].(state := Ready))
    ensures Handle(s).ring.chains.Keys == s.ring.chains.Keys
    ensures forall h | h in s.ring.chains && s.ring.chains[h].phase == Used ::
              Handle(s).ring.chains[h].phase == Taken
    ensures forall h | h in s.ring.chains && s.ring.chains[h].phase == Taken ::
              Handle(s).ring.chains[h].phase == Taken
    decreases s.ring.u - s.ring.t
  {
    hide Queues, Placed, VirtioRing.Disjoint, Owned, ModeInv, LinkInv, LockedBuf;
    TakeInv(s.ring);
    if s.ring.seen == s.ring.usedIdx {
      forall h | h in s.ring.chains
        ensures s.ring.chains[h].phase != Used
      {
        NothingReported(s.ring, h);
      }
    } else {
      var t := HandlerNeverSpins(s);
      var u := HandleOneOk(s);
      HandleOk(HandleOne(s));
    }
  }

  /** A reported completion always reaches its thread: the handler finds it
      asleep and leaves it ready. */
  lemma WakeupDelivered(s: Sys, h: nat) returns (t: nat)
    requires SysInv(s) && Interruptible(s) && h in s.ring.chains && s.ring.chains[h].phase == Used
    ensures t < |s.threads| && HasRequest(s.threads[t].pc) && Request(s.threads[t].pc).1 == h
    ensures s.threads[t].state == Sleeping && |Handle(s).threads| == |s.threads|
    ensures Handle(s).threads[t].state == Ready
  {
    hide Inv, Queues, Structure, LockedBuf, BufOk;
    assert ChainOwned(s, h);
    t :| t < |s.threads| && HasRequest(s.threads[t].pc) && Request(s.threads[t].pc).1 == h;
    assert DiskOk(s, t);
    if t != s.current { assert Idle(s.threads[t]); }
    HandleOk(s);
    assert DiskOk(Handle(s), t);
  }

  lemma IntrReturnOk(s: Sys)
    requires SysInv(s) && s.cpu.push == 0
    ensures SysInv(IntrReturn(s))
  {
    var s' := IntrReturn(s);
    forall u: nat | u < |s'.threads|
      ensures DiskOk(s', u)
      ensures u != s'.current ==> Idle(s'.threads[u])
    {
      assert DiskOk(s, u);
      if u != s.current { assert Idle(s.threads[u]); }
    }
    LockedKeep(s, s');
    LinkKeep(s, s');
  }
}
