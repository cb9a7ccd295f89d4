/** `kernel/waitqueue.c`: the linked queue behind every sleep, proved against
    the sequence of its waiters. */
module WaitQueue {
  import opened Bits
  import opened Kernel

  class WaitNode {
    var next: WaitNode?
    const thread: nat
    constructor (t: nat)
      ensures thread == t && next == null
    {
      thread := t;
      next := null;
    }
  }

  class ThreadPool {
    var threads: seq<Thread>
    constructor (ts: seq<Thread>)
      ensures threads == ts
    {
      threads := ts;
    }

    /** `awake`; its lock is taken and released around the assignment. */
    method Awake(t: nat)
      requires t < |threads|
      modifies this
      ensures threads == old(threads)[t := old(threads)[t].(state := Ready)]
    {
      threads := threads[t := threads[t].(state := Ready)];
    }
  }

  class WaitQueue {
    const id: nat            // the buffer whose queue this is
    const kind: nat          // type: ONERELEASE 0 or ALLRELEASE 1
    var left: WaitNode?
    var last: WaitNode?      // right points at left (null) or at last.next
    ghost var nodes: seq<WaitNode>

    ghost predicate Valid()
      reads this, nodes
    {
      && (forall i, j | 0 <= i < j < |nodes| :: nodes[i] != nodes[j])
      && (nodes == [] ==> left == null && last == null)
      && (nodes != [] ==> left == nodes[0] && last == nodes[|nodes| - 1] && nodes[|nodes| - 1].next == null)
      && (forall i | 0 <= i < |nodes| - 1 :: nodes[i].next == nodes[i + 1])
    }

    ghost function Contents(): (s: seq<nat>)
      reads this, nodes
      ensures |s| == |nodes|
    {
      seq(|nodes|, i requires 0 <= i < |nodes| reads this, nodes => nodes[i].thread)
    }

    /** `alloc_wait_queue` */
    constructor (b: nat, k: nat)
      ensures Valid() && Contents() == [] && id == b && kind == k && nodes == []
    {
      id, kind := b, k;
      left, last, nodes := null, null, [];
    }

    /** `wait_queue_push_back` */
    method PushBack(t: nat)
      requires Valid()
      modifies this, nodes
      ensures Valid() && Contents() == old(Contents()) + [t]
      ensures fresh(set n | n in nodes && n !in old(nodes))
    {
      var node := new WaitNode(t);
      if last == null {
        left := node;
      } else {
        last.next := node;
      }
      last := node;
      nodes := nodes + [node];
    }

    /** `wait_queue_pop` */
    method Pop()
      requires Valid() && nodes != []
      modifies this
      ensures Valid() && nodes == old(nodes)[1..] && Contents() == old(Contents())[1..]
    {
      left := left.next;
      if left == null {
        last := null;
      }
      nodes := nodes[1..];
    }

    /** `awake_wait_queue`: every waiter still asleep on this queue becomes
        ready, in order; stale nodes are dropped; the queue ends up empty
        whatever its kind is, since kind | 1 is never 0. */
    method AwakeWaiters(pool: ThreadPool)
      requires Valid()
      modifies this, pool
      ensures Valid() && Contents() == []
      ensures pool.threads == AwakeAll(old(pool.threads), old(Contents()), id)
    {
      while left != null
        invariant Valid()
        invariant AwakeAll(pool.threads, Contents(), id) == AwakeAll(old(pool.threads), old(Contents()), id)
        decreases |nodes|
      {
        var t := left.thread;
        ghost var rest := Contents()[1..];
        assert Contents()[0] == t;
        if t < |pool.threads| && (pool.threads[t].waiting != OnBuf(id) || pool.threads[t].state != Sleeping) {
          Pop();
          continue;
        }
        if t < |pool.threads| {
          pool.Awake(t);
        }
        Pop();
        if Or(kind, 1) == 0 {
          break;
        }
      }
      assert Contents() == [];
    }
  }
}
