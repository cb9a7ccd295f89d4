/** `kernel/strap.c` (interrupt nesting) and `kernel/spinlock.c` on one hart. */
module Interrupts {

  /** push_off_num, intr_status and the SIE bit of sstatus. */
  datatype CpuState = CpuState(push: nat, status: bool, sie: bool)

  function Push(c: CpuState): CpuState {
    if c.push == 0 then CpuState(1, c.sie, false) else c.(push := c.push + 1)
  }

  function Pop(c: CpuState): CpuState
    requires c.push > 0
  {
    if c.push == 1 then CpuState(0, c.status, c.sie || c.status) else c.(push := c.push - 1)
  }

  function PushN(c: CpuState, n: nat): CpuState
    decreases n
  {
    if n == 0 then c else Push(PushN(c, n - 1))
  }

  function PopN(c: CpuState, n: nat): CpuState
    requires n <= c.push
    decreases n
  {
    if n == 0 then c else PopN(Pop(c), n - 1)
  }

  /** Interrupts are off from the first push to the last pop, and then exactly
      as they were, however deep the nesting. */
  lemma {:induction false} NestingRestores(c: CpuState, n: nat)
    requires c.push == 0
    ensures PushN(c, n).push == n && (n > 0 ==> !PushN(c, n).sie)
    ensures PopN(PushN(c, n), n).push == 0 && PopN(PushN(c, n), n).sie == c.sie
    decreases n
  {
    if n > 0 {
      NestingRestores(c, n - 1);
      PushedState(c, n);
      if n > 1 {
        PushedState(c, n - 1);
        assert Pop(PushN(c, n)) == PushN(c, n - 1);
      }
    }
  }

  lemma {:induction false} PushedState(c: CpuState, n: nat)
    requires c.push == 0 && n > 0
    ensures PushN(c, n) == CpuState(n, c.sie, false)
    decreases n
  {
    if n > 1 { PushedState(c, n - 1); }
  }

  class Spinlock {
    var held: bool
    constructor ()
      ensures !held
    {
      held := false;
    }
  }

  class Cpu {
    var push_off_num: nat
    var intr_status: bool
    var sie: bool

    function State(): CpuState
      reads this
    {
      CpuState(push_off_num, intr_status, sie)
    }

    constructor (on: bool)
      ensures State() == CpuState(0, false, on)
    {
      push_off_num, intr_status, sie := 0, false, on;
    }

    /** `intr_push` */
    method IntrPush()
      modifies this
      ensures State() == Push(old(State()))
    {
      push_off_num := push_off_num + 1;
      if push_off_num - 1 == 0 {
        if sie {
          intr_status := true;
          sie := false;
        } else {
          intr_status := false;
        }
      }
    }

    /** `intr_pop` */
    method IntrPop()
      requires push_off_num > 0
      modifies this
      ensures State() == Pop(old(State()))
    {
      push_off_num := push_off_num - 1;
      if push_off_num == 0 {
        if intr_status {
          sie := true;
        }
      }
    }

    /** `acquire_spinlock`, followed for the first rounds of its loop: a free lock
        is taken in the first one, a held one in none. With interrupts off nothing
        else runs on the hart, so the loop on a held lock never ends. */
    method Acquire(l: Spinlock, rounds: nat) returns (taken: bool)
      modifies this, l
      ensures taken <==> !old(l.held) && rounds > 0
      ensures l.held == (old(l.held) || taken) && State() == Push(old(State()))
      ensures old(push_off_num == 0 || !sie) ==> !sie
    {
      IntrPush();
      taken := false;
      var n := 0;
      while n < rounds && !taken
        invariant n <= rounds && State() == Push(old(State())) && l.held == (old(l.held) || taken)
        invariant taken <==> !old(l.held) && n > 0
      {
        var was := l.held;
        l.held := true;
        taken := !was;
        n := n + 1;
      }
    }

    /** `release_spinlock`: the lock is free before interrupts may come on. */
    method Release(l: Spinlock)
      requires push_off_num > 0
      modifies this, l
      ensures !l.held && State() == Pop(old(State()))
    {
      l.held := false;
      IntrPop();
    }

    /** `try_acquire_spinlock`: the nesting grows only on success. */
    method TryAcquire(l: Spinlock) returns (ok: bool)
      modifies this, l
      ensures ok == !old(l.held) && l.held
      ensures ok ==> State() == Push(old(State()))
      ensures !ok ==> push_off_num == old(push_off_num) && sie == old(sie)
    {
      IntrPush();
      var was := l.held;
      l.held := true;
      if !was {
        return true;
      }
      IntrPop();
      return false;
    }
  }
}
