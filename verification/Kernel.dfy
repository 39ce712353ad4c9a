/**
 * Threads, semaphores and locks (pintos/src/threads/thread.c and synch.c) as a
 * machine whose steps are the regions with interrupts off.  Between two steps
 * any thread may be running, so an invariant of Kernel holds in every
 * interleaving.  A switch is one assignment to `cur`.
 */
module Kernel {
  import opened Options
  import opened Scheduling
  import opened Seqs
  import opened Priorities
  import opened Semaphores
  import Donation
  import Runs
  import Sets

  datatype Lock = Lock(holder: Option<int>, maxPriority: int)

  function Held(holding: map<int, seq<int>>, t: int): seq<int> { if t in holding then holding[t] else [] }

  /** A free lock has value 1 and nobody inside; a held one has value 0 and exactly its holder inside. */
  ghost predicate LockOk(l: Lock, value: int, inside: set<int>) {
    if l.holder.None? then value == 1 && inside == {} else value == 0 && inside == {l.holder.value}
  }

  predicate Holds(locks: map<int, Lock>, l: int, t: int) { l in locks && locks[l].holder == Some(t) }

  ghost predicate LocksOk(locks: map<int, Lock>, value: map<int, int>, inside: map<int, set<int>>,
                          holding: map<int, seq<int>>, threads: set<int>) {
    && locks.Keys == inside.Keys
    && (forall l :: l in locks ==> l in value && LockOk(locks[l], value[l], inside[l]))
    && (forall l, t :: Holds(locks, l, t) ==> t in threads)
    && (forall t :: Once(Held(holding, t)))
    && (forall t, l :: l in Held(holding, t) <==> Holds(locks, l, t))
  }

  lemma KeysLocksOk(locks: map<int, Lock>, value: map<int, int>, inside: map<int, set<int>>,
                    holding: map<int, seq<int>>, a: set<int>, b: set<int>)
    requires LocksOk(locks, value, inside, holding, a) && a <= b
    ensures LocksOk(locks, value, inside, holding, b)
  {}

  lemma DropLocksOk(locks: map<int, Lock>, value: map<int, int>, inside: map<int, set<int>>,
                    holding: map<int, seq<int>>, a: set<int>, c: int)
    requires LocksOk(locks, value, inside, holding, a) && Held(holding, c) == []
    ensures LocksOk(locks, value, inside, holding, a - {c})
  {
    forall l, t | Holds(locks, l, t) ensures t in a - {c} { assert l in Held(holding, t); }
  }

  class Kernel {
    const idle: int
    var status: map<int, Status>
    var prio: map<int, int>
    var cur: int
    var ready: seq<int>
    /** Semaphores: value and waiters. */
    var value: map<int, int>
    var waiters: map<int, seq<int>>
    /** intr_yield_on_return was called. */
    var yieldOnReturn: bool
    /** A lock has the number of its semaphore. */
    var locks: map<int, Lock>
    /** lock_holding of each thread. */
    var holding: map<int, seq<int>>
    /** old_priority of each thread. */
    var oldPrio: map<int, int>

    /** The semaphore whose sema_down a thread is in. */
    ghost var want: map<int, int>
    /** Woken from each semaphore and not yet run again. */
    ghost var woken: map<int, set<int>>
    ghost var count: map<int, Count>
    ghost var stamp: map<int, int>
    ghost var clock: int
    /** The threads between the return of lock_acquire and lock_release. */
    ghost var inside: map<int, set<int>>

    ghost predicate Core(on: set<int>)
      reads this
    {
      && Placed(status, ready, waiters, want, idle, on) && Ordered(ready, prio, stamp, clock)
      && CountsOk(value, waiters, woken, count) && WokenOk(waiters, woken, want) && prio.Keys == status.Keys
    }

    /** The state between two steps, locks aside. */
    ghost predicate Steady()
      reads this
    {
      Core({cur})
    }

    ghost predicate Valid()
      reads this
    {
      Steady() && LocksOk(locks, value, inside, holding, prio.Keys)
    }

    /** The running thread is at or above every ready one. */
    ghost predicate RunsHighest()
      reads this
    {
      forall x :: x in ready ==> Prio(prio, x) <= Prio(prio, cur)
    }

    /** The machine when threads start: the first thread runs, the idle thread has blocked. */
    constructor (first: int, idleThread: int, p: int)
      requires first != idleThread
      ensures Valid() && cur == first && idle == idleThread && value == map[] && locks == map[]
    {
      idle, cur, ready := idleThread, first, [];
      status, prio, oldPrio := map[first := Running, idleThread := Blocked], map[first := p, idleThread := 0],
        map[first := p, idleThread := 0];
      value, waiters, yieldOnReturn, locks, holding := map[], map[], false, map[], map[];
      want, woken, count, stamp, clock, inside := map[], map[], map[], map[], 0, map[];
      new;
      StartPlaced(first, idleThread);
    }

    /** `schedule`: the head of the ready list, or the idle thread, runs next. */
    method Schedule()
      requires Core({})
      modifies this`status, this`ready, this`cur
      ensures Core({cur}) && cur == NextToRun(old(ready), idle) && ready == Rest(old(ready)) && RunsHighest()
    {
      hide Placed, Ordered, CountsOk, WokenOk, Prio;
      PickPlaced(status, ready, waiters, want, idle);
      RestOrdered(ready, prio, stamp, clock);
      assert NextToRun(ready, idle) in status by { PickKnown(status, ready, waiters, want, idle); }
      if ready == [] {
        cur := idle;
      } else {
        cur := ready[0];
        ready := ready[1..];
      }
      status := status[cur := Running];
    }

    /** The running thread goes behind the ready threads of its priority. */
    method Requeue()
      requires Core({cur})
      modifies this`status, this`ready, this`stamp, this`clock
      ensures Core({}) && ready == if cur == idle then old(ready) else Enter(old(ready), prio, cur)
    {
      hide Placed, Ordered, CountsOk, WokenOk, Prio, Enter;
      RunningFacts(status, ready, waiters, want, idle, cur);
      if cur != idle {
        EnterAdds(ready, prio, cur);
        EnterOrdered(ready, prio, stamp, clock, cur);
        YieldPlaced(status, ready, waiters, want, idle, cur, Enter(ready, prio, cur));
        ready := Enter(ready, prio, cur);
        stamp, clock := stamp[cur := clock], clock + 1;
      } else {
        IdleStopPlaced(status, ready, waiters, want, idle, Ready);
      }
      status := status[cur := Ready];
    }

    /** `thread_yield` */
    method ThreadYield()
      requires Steady()
      modifies this`status, this`ready, this`cur, this`stamp, this`clock
      ensures Steady() && (old(Valid()) ==> Valid())
      ensures RunsHighest() && cur == NextToRun(if old(cur) == idle then old(ready)
        else Enter(old(ready), prio, old(cur)), idle)
    {
      hide Core, Prio, Enter, LocksOk;
      Requeue();
      Schedule();
    }

    /** `check_preemption`, in or outside an interrupt handler. */
    method CheckPreemption(inInterrupt: bool)
      requires Steady()
      modifies this`status, this`ready, this`cur, this`stamp, this`clock, this`yieldOnReturn
      ensures Steady() && (old(Valid()) ==> Valid()) &&
        (!inInterrupt ==> RunsHighest() && yieldOnReturn == old(yieldOnReturn))
      ensures inInterrupt ==>
        cur == old(cur) && ready == old(ready) && status == old(status) && (RunsHighest() || yieldOnReturn)
      ensures old(RunsHighest()) ==> cur == old(cur) && ready == old(ready) && status == old(status)
    {
      hide Placed, Ordered, CountsOk, WokenOk, Prio, Enter, LocksOk;
      RestOrdered(ready, prio, stamp, clock);
      assert ready != [] ==> ready[0] in ready;
      if ready != [] && Prio(prio, ready[0]) > Prio(prio, cur) {
        if !inInterrupt {
          ThreadYield();
        } else {
          yieldOnReturn := true;
        }
      }
    }

    /** The end of an interrupt: the yield asked for by the handler. */
    method InterruptReturn()
      requires Valid() && (RunsHighest() || yieldOnReturn)
      modifies this`status, this`ready, this`cur, this`stamp, this`clock, this`yieldOnReturn
      ensures Valid() && RunsHighest() && !yieldOnReturn
    {
      hide Placed, Ordered, CountsOk, WokenOk, Prio, Enter, LocksOk;
      if yieldOnReturn {
        yieldOnReturn := false;
        ThreadYield();
      }
    }

    /** The first step of `thread_create`, up to the end of its thread_unblock: the new
        thread is ready and the caller runs on. */
    method Admit(t: int, p: int)
      requires Valid() && t !in status
      modifies this`status, this`prio, this`oldPrio, this`ready, this`stamp, this`clock
      ensures Valid() && status == old(status)[t := Ready] && prio == old(prio)[t := p] &&
        oldPrio == old(oldPrio)[t := p]
      ensures ready == Enter(old(ready), prio, t)
    {
      hide Placed, Ordered, CountsOk, WokenOk, Prio, Enter, LocksOk;
      FreshFacts(status, ready, waiters, want, idle, cur, t);
      SamePrio(ready, prio, t, p);
      SameOrdered(ready, prio, prio[t := p], stamp, clock);
      prio, oldPrio := prio[t := p], oldPrio[t := p];
      EnterAdds(ready, prio, t);
      EnterOrdered(ready, prio, stamp, clock, t);
      CreatePlaced(status, ready, waiters, want, idle, {cur}, t, Enter(ready, prio, t));
      ready := Enter(ready, prio, t);
      status := status[t := Ready];
      stamp, clock := stamp[t := clock], clock + 1;
      KeysLocksOk(locks, value, inside, holding, old(prio.Keys), prio.Keys);
    }

    /** Both steps of `thread_create` with nothing in between; other threads' steps may
        come between Admit and CheckPreemption. */
    method ThreadCreate(t: int, p: int)
      requires Valid() && t !in status
      modifies this`status, this`prio, this`oldPrio, this`ready, this`cur, this`stamp, this`clock, this`yieldOnReturn
      ensures Valid() && RunsHighest() && prio == old(prio)[t := p] && oldPrio == old(oldPrio)[t := p]
    {
      hide Core, Prio, LocksOk;
      Admit(t, p);
      CheckPreemption(false);
    }

    /** The end of `thread_exit`: the thread leaves the table for good. */
    method ThreadExit()
      requires Valid() && cur != idle && cur !in want && Held(holding, cur) == []
      modifies this`status, this`prio, this`ready, this`cur
      ensures Valid() && RunsHighest() && old(cur) !in status && prio == old(prio) - {old(cur)}
    {
      hide Placed, Ordered, CountsOk, WokenOk, Prio, Enter, LocksOk;
      RunningFacts(status, ready, waiters, want, idle, cur);
      ExitPlaced(status, ready, waiters, want, idle, cur);
      DropPrio(ready, prio, cur);
      SameOrdered(ready, prio, prio - {cur}, stamp, clock);
      DropLocksOk(locks, value, inside, holding, prio.Keys, cur);
      ghost var gone := cur;
      status, prio := status - {cur}, prio - {cur};
      PickNot(status, ready, waiters, want, idle, gone);
      Schedule();
    }

    /** The idle thread's `thread_block`. */
    method IdleBlock()
      requires Valid() && cur == idle
      modifies this`status, this`ready, this`cur
      ensures Valid() && RunsHighest()
    {
      hide Placed, Ordered, CountsOk, WokenOk, Prio, Enter, LocksOk;
      RunningFacts(status, ready, waiters, want, idle, cur);
      IdleStopPlaced(status, ready, waiters, want, idle, Blocked);
      status := status[cur := Blocked];
      Schedule();
    }

    /** A new priority for the running thread. */
    method SetCurrentPriority(p: int)
      requires Steady()
      modifies this`prio
      ensures Steady() && prio == old(prio)[cur := p]
    {
      hide Placed, Ordered, CountsOk, WokenOk, Prio, Enter, LocksOk;
      RunningFacts(status, ready, waiters, want, idle, cur);
      SamePrio(ready, prio, cur, p);
      SameOrdered(ready, prio, prio[cur := p], stamp, clock);
      prio := prio[cur := p];
    }

    // ----- semaphores -----

    /** The running thread joins the waiters of s and blocks. */
    method Wait(s: int)
      requires Core({cur}) && s in value && s in waiters && s in woken && value[s] == 0 && MayWant(want, cur, s) &&
        cur != idle
      modifies this`status, this`waiters, this`want, this`woken
      ensures Core({}) && want == old(want)[cur := s] &&
        waiters == old(waiters)[s := Enter(old(waiters)[s], prio, cur)] && cur in waiters[s]
    {
      hide Placed, Ordered, CountsOk, WokenOk, Prio, Enter;
      RunningFacts(status, ready, waiters, want, idle, cur);
      EnterAdds(waiters[s], prio, cur);
      ghost var l := Enter(waiters[s], prio, cur);
      BlockPlaced(status, ready, waiters, want, idle, cur, s, l);
      BlockCounts(value, waiters, woken, count, s, l, cur);
      BlockWoken(waiters, woken, want, s, l, cur);
      waiters := waiters[s := Enter(waiters[s], prio, cur)];
      status := status[cur := Blocked];
      want, woken := want[cur := s], woken[s := woken[s] - {cur}];
    }

    /** The running thread takes one unit of s. */
    method Take(s: int)
      requires Core({cur}) && s in value && s in waiters && s in woken && s in count && 0 < value[s] &&
        MayWant(want, cur, s)
      modifies this`value, this`want, this`woken, this`count
      ensures Core({cur}) && want == old(want) - {cur}
      ensures value == old(value)[s := old(value)[s] - 1] &&
        count == old(count)[s := old(count)[s].(downs := old(count)[s].downs + 1)]
    {
      hide Placed, Ordered, CountsOk, WokenOk, Prio;
      DonePlaced(status, ready, waiters, want, idle, cur);
      DownCounts(value, waiters, woken, count, s, cur);
      DownWoken(waiters, woken, want, s, cur);
      value := value[s := value[s] - 1];
      want, woken := want - {cur}, woken[s := woken[s] - {cur}];
      count := count[s := count[s].(downs := count[s].downs + 1)];
    }

    lemma Keys(s: int)
      requires Steady() && s in value
      ensures s in waiters && s in woken && s in count && 0 <= value[s]
    {
      hide Placed, Ordered, WokenOk;
      CountKeys(value, waiters, woken, count);
    }

    /**
     * One round of the loop in `sema_down`, by the running thread: it takes the
     * semaphore, or joins the waiters and stops running.  The next round is
     * another call once it runs again.
     */
    method Down(s: int) returns (done: bool)
      requires Steady() && s in value && MayWant(want, cur, s) && cur != idle
      modifies this`status, this`ready, this`cur, this`value, this`waiters, this`want, this`woken, this`count
      ensures Steady() && done == (0 < old(value)[s]) && s in old(waiters)
      ensures done ==>
        value == old(value)[s := old(value)[s] - 1] && s in old(count) &&
        count == old(count)[s := old(count)[s].(downs := old(count)[s].downs + 1)]
      ensures done ==> cur == old(cur) && want == old(want) - {cur}
      ensures !done ==> value == old(value) && count == old(count) && want == old(want)[old(cur) := s] && RunsHighest()
      ensures waiters == if done then old(waiters) else old(waiters)[s := Enter(old(waiters)[s], prio, old(cur))]
    {
      hide Core, Prio, Enter, MayWant;
      Keys(s);
      done := value[s] > 0;
      if !done {
        Wait(s);
        Schedule();
      } else {
        Take(s);
      }
    }

    /** `sema_init` */
    method SemaInit(s: int, v: int)
      requires Valid() && s !in value && 0 <= v
      modifies this`value, this`waiters, this`woken, this`count
      ensures Valid() && value == old(value)[s := v] && waiters == old(waiters)[s := []] &&
        count == old(count)[s := Count(v, 0, 0)]
    {
      hide Placed, Ordered, CountsOk, WokenOk, Prio, LocksOk;
      CountKeys(value, waiters, woken, count);
      InitPlaced(status, ready, waiters, want, idle, {cur}, s);
      InitCounts(value, waiters, woken, count, s, v);
      InitWoken(waiters, woken, want, s);
      FrameLocks(locks, value, value[s := v], inside, holding, prio.Keys, s);
      value, waiters, woken, count := value[s := v], waiters[s := []], woken[s := {}], count[s := Count(v, 0, 0)];
    }

    /** `sema_down`, one round, on a semaphore that is not a lock's. */
    method SemaDown(s: int) returns (done: bool)
      requires Valid() && s in value && s !in locks && MayWant(want, cur, s) && cur != idle
      modifies this`status, this`ready, this`cur, this`value, this`waiters, this`want, this`woken, this`count
      ensures Valid() && done == (0 < old(value)[s]) && s in old(waiters)
      ensures done ==>
        value == old(value)[s := old(value)[s] - 1] && s in old(count) &&
        count == old(count)[s := old(count)[s].(downs := old(count)[s].downs + 1)]
      ensures done ==> cur == old(cur) && want == old(want) - {cur}
      ensures !done ==> value == old(value) && count == old(count) && want == old(want)[old(cur) := s] && RunsHighest()
      ensures waiters == if done then old(waiters) else old(waiters)[s := Enter(old(waiters)[s], prio, old(cur))]
    {
      hide Core, LocksOk, Prio, MayWant;
      done := Down(s);
      FrameLocks(locks, old(value), value, inside, holding, prio.Keys, s);
    }

    /** `sema_try_down`, which an interrupt handler may call too. */
    method SemaTryDown(s: int) returns (success: bool)
      requires Valid() && s in value && s !in locks
      modifies this`value, this`count
      ensures Valid() && success == (0 < old(value)[s]) && s in old(count)
      ensures success ==>
        value == old(value)[s := old(value)[s] - 1] &&
        count == old(count)[s := old(count)[s].(downs := old(count)[s].downs + 1)]
      ensures !success ==> value == old(value) && count == old(count)
    {
      hide Placed, Ordered, CountsOk, WokenOk, Prio, LocksOk;
      CountKeys(value, waiters, woken, count);
      success := value[s] > 0;
      if success {
        TryCounts(value, waiters, woken, count, s);
        FrameLocks(locks, value, value[s := value[s] - 1], inside, holding, prio.Keys, s);
        value := value[s := value[s] - 1];
        count := count[s := count[s].(downs := count[s].downs + 1)];
      }
    }

    /** Sorts the waiters by their present priorities and readies the first. */
    method Wake(s: int) returns (t: int)
      requires Core({cur}) && s in value && s in waiters && s in woken && s in count && waiters[s] != []
      modifies this`status, this`ready, this`stamp, this`clock, this`value, this`waiters, this`woken, this`count
      ensures Core({cur}) && Highest(old(waiters)[s], prio, t) && woken == old(woken)[s := old(woken)[s] + {t}]
      ensures waiters == old(waiters)[s := Rest(SortWaiters(old(waiters)[s], prio))] && t !in waiters[s]
      ensures value == old(value)[s := old(value)[s] + 1] &&
        count == old(count)[s := old(count)[s].(ups := old(count)[s].ups + 1)]
    {
      hide Placed, Ordered, CountsOk, WokenOk, Prio, Enter, SortWaiters, Highest, Rest, Adds;
      t := SortWaiters(waiters[s], prio)[0];
      var rest := Rest(SortWaiters(waiters[s], prio));
      WakeFacts(status, ready, waiters, want, idle, cur, s, prio);
      EnterOrdered(ready, prio, stamp, clock, t);
      UnblockPlaced(status, ready, waiters, want, idle, {cur}, s, t, rest, Enter(ready, prio, t));
      UpCounts(value, waiters, woken, want, count, s, rest, t);
      UpWoken(waiters, woken, want, s, rest, t);
      waiters := waiters[s := rest];
      ready := Enter(ready, prio, t);
      status := status[t := Ready];
      value := value[s := value[s] + 1];
      stamp, clock := stamp[t := clock], clock + 1;
      woken, count := woken[s := woken[s] + {t}], count[s := count[s].(ups := count[s].ups + 1)];
    }

    /** `sema_up`: an up readies a waiter of maximal present priority, if there is one. */
    method Up(s: int, inInterrupt: bool) returns (woke: Option<int>)
      requires Steady() && s in value
      modifies this`status, this`ready, this`cur, this`stamp, this`clock, this`value, this`waiters, this`woken
      modifies this`count, this`yieldOnReturn
      ensures Steady() && s in old(waiters) && s in old(count) && s in old(woken)
      ensures value == old(value)[s := old(value)[s] + 1] &&
        count == old(count)[s := old(count)[s].(ups := old(count)[s].ups + 1)]
      ensures woke.None? <==> old(waiters)[s] == []
      ensures woke.Some? ==>
        Highest(old(waiters)[s], prio, woke.value) && woken == old(woken)[s := old(woken)[s] + {woke.value}]
      ensures waiters == (if woke.Some? then old(waiters)[s := Rest(SortWaiters(old(waiters)[s], prio))]
        else old(waiters))
      ensures if inInterrupt then cur == old(cur) && (RunsHighest() || yieldOnReturn)
        else RunsHighest() && yieldOnReturn == old(yieldOnReturn)
    {
      hide Core, Prio, Highest, Enter, SortWaiters, Rest;
      Keys(s);
      if waiters[s] != [] {
        var t := Wake(s);
        woke := Some(t);
      } else {
        Release(s);
        woke := None;
      }
      CheckPreemption(inInterrupt);
    }

    /** An up without waiters. */
    method Release(s: int)
      requires Core({cur}) && s in value && s in waiters && s in count && waiters[s] == []
      modifies this`value, this`count
      ensures Core({cur})
      ensures value == old(value)[s := old(value)[s] + 1] &&
        count == old(count)[s := old(count)[s].(ups := old(count)[s].ups + 1)]
    {
      hide Placed, Ordered, CountsOk, WokenOk, Prio;
      UpNoneCounts(value, waiters, woken, count, s);
      value := value[s := value[s] + 1];
      count := count[s := count[s].(ups := count[s].ups + 1)];
    }

    method SemaUp(s: int, inInterrupt: bool) returns (woke: Option<int>)
      requires Valid() && s in value && s !in locks
      modifies this`status, this`ready, this`cur, this`stamp, this`clock, this`value, this`waiters, this`woken
      modifies this`count, this`yieldOnReturn
      ensures Valid() && s in old(waiters) && s in old(count) && s in old(woken)
      ensures value == old(value)[s := old(value)[s] + 1] &&
        count == old(count)[s := old(count)[s].(ups := old(count)[s].ups + 1)]
      ensures woke.None? <==> old(waiters)[s] == []
      ensures woke.Some? ==>
        Highest(old(waiters)[s], prio, woke.value) && woken == old(woken)[s := old(woken)[s] + {woke.value}]
      ensures waiters == (if woke.Some? then old(waiters)[s := Rest(SortWaiters(old(waiters)[s], prio))]
        else old(waiters))
      ensures if inInterrupt then cur == old(cur) && (RunsHighest() || yieldOnReturn)
        else RunsHighest() && yieldOnReturn == old(yieldOnReturn)
    {
      hide Core, Prio, Highest, LocksOk, SortWaiters, Rest;
      woke := Up(s, inInterrupt);
      FrameLocks(locks, old(value), value, inside, holding, prio.Keys, s);
    }

    // ----- locks -----

    /** `lock_init` */
    method LockInit(l: int)
      requires Valid() && l !in value
      modifies this`value, this`waiters, this`woken, this`count, this`locks, this`inside
      ensures Valid() && locks == old(locks)[l := Lock(None, 0)] && value == old(value)[l := 1]
    {
      hide Placed, Ordered, CountsOk, WokenOk, Prio, LocksOk;
      LockKnown(locks, value, inside, holding, prio.Keys, l);
      SemaInit(l, 1);
      InitLocks(locks, value, inside, holding, prio.Keys, l);
      locks, inside := locks[l := Lock(None, 0)], inside[l := {}];
    }

    /** The lock is the running thread's: it joins lock_holding and holder is set. */
    method Hold(l: int, ghost value0: map<int, int>)
      requires Steady() && LocksOk(locks, value0, inside, holding, prio.Keys) && l in locks && l in value0 &&
        0 < value0[l]
      requires value == value0[l := value0[l] - 1] && cur in prio
      modifies this`locks, this`inside, this`holding
      ensures Valid() && locks == old(locks)[l := Lock(Some(cur), old(locks)[l].maxPriority)] &&
        old(locks)[l].holder == None
      ensures holding == old(holding)[cur := Runs.InsertOrdered(ByMax(old(locks)), Held(old(holding), cur), l)]
      ensures inside == old(inside)[l := {cur}]
    {
      hide Placed, Ordered, CountsOk, WokenOk, Prio, LocksOk, Runs.InsertOrdered, ByMax;
      ObtainFacts(locks, value0, inside, holding, prio.Keys, l, cur);
      holding := holding[cur := Runs.InsertOrdered(ByMax(locks), Held(holding, cur), l)];
      locks := locks[l := Lock(Some(cur), locks[l].maxPriority)];
      assert inside[l] + {cur} == {cur};
      inside := inside[l := inside[l] + {cur}];
    }

    /** The end of lock_acquire: one round of the lock's sema_down, then the lock is the thread's. */
    method Obtain(l: int) returns (done: bool)
      requires Valid() && l in locks && l in value && MayWant(want, cur, l) && cur != idle
      modifies this`status, this`ready, this`cur, this`value, this`waiters, this`want, this`woken, this`count
      modifies this`locks, this`inside, this`holding
      ensures Valid() && done == (0 < old(value)[l])
      ensures done ==>
        old(locks)[l].holder == None && cur == old(cur) && cur !in want &&
        inside == old(inside)[l := {cur}]
      ensures done ==> locks == old(locks)[l := Lock(Some(cur), old(locks)[l].maxPriority)]
      ensures done ==> holding == old(holding)[cur := Runs.InsertOrdered(ByMax(old(locks)), Held(old(holding), cur), l)]
      ensures !done ==> locks == old(locks) && inside == old(inside) && holding == old(holding)
      ensures !done ==> old(cur) in want && want[old(cur)] == l && RunsHighest()
    {
      hide Core, Prio, LocksOk, MayWant, Runs.InsertOrdered, ByMax;
      done := Down(l);
      if done {
        SteadyKnows();
        Hold(l, old(value));
      }
    }

    /** The donation walk from lock l; `waiting` gives the first lock in each thread's lock_waiting list. */
    method Donate(l: int, waiting: map<int, int>)
      requires Valid() && l in locks && cur in prio && (forall t :: t in waiting ==> waiting[t] in locks)
      requires NoReadyDonee(ready, prio, WaitsOf(locks, waiting), l, prio[cur])
      modifies this`prio, this`locks
      ensures Valid() && prio.Keys == old(prio).Keys && SameHolders(old(locks), locks)
      ensures Donation.AfterWalk(old(prio), prio, WaitsOf(old(locks), waiting), l, old(prio)[cur])
      ensures MaxRaised(old(locks), locks, old(prio)[cur])
    {
      hide Placed, Ordered, CountsOk, WokenOk, Prio, LocksOk, Donation.AfterWalk, Donation.Reached,
        Donation.ReachedLock, Donation.Low, NoReadyDonee;
      var w, max := WaitsOf(locks, waiting), map m | m in locks :: locks[m].maxPriority;
      WaitsWell(locks, value, inside, holding, prio, waiting);
      var prio', max' := Donation.Walk(prio, max, w, cur, l);
      IsAfterWalk(prio, prio', w, l, prio[cur]);
      DonationOrdered(ready, prio, prio', w, l, prio[cur], stamp, clock);
      var locks' := map m | m in locks :: Lock(locks[m].holder, max'[m]);
      HoldersLocksOk(locks, locks', value, inside, holding, prio.Keys);
      prio, locks := prio', locks';
    }

    /**
     * `lock_acquire` up to the end of its first round: the running thread
     * donates along the chain, then takes the lock or waits for it.
     */
    method LockAcquire(l: int, waiting: map<int, int>) returns (done: bool)
      requires Valid() && l in locks && l in value && !Holds(locks, l, cur) && cur != idle && cur !in want &&
        cur in prio
      requires (forall t :: t in waiting ==> waiting[t] in locks) &&
        NoReadyDonee(ready, prio, WaitsOf(locks, waiting), l, prio[cur])
      modifies this`status, this`ready, this`cur, this`prio, this`value, this`waiters, this`want, this`woken
      modifies this`count, this`locks, this`inside, this`holding
      ensures Valid() && done == (0 < old(value)[l])
      ensures Donation.AfterWalk(old(prio), prio, WaitsOf(old(locks), waiting), l, old(prio)[old(cur)])
      ensures done ==> Holds(locks, l, cur) && cur == old(cur) && cur !in want && inside == old(inside)[l := {cur}]
      ensures !done ==> old(cur) in want && want[old(cur)] == l && RunsHighest()
    {
      hide Core, Prio, LocksOk, Donation.AfterWalk, NoReadyDonee;
      Donate(l, waiting);
      done := Obtain(l);
    }

    /** Another round of `lock_acquire`, by a thread that was woken. */
    method LockRetry(l: int) returns (done: bool)
      requires Valid() && l in locks && l in value && cur in want && want[cur] == l && cur != idle
      modifies this`status, this`ready, this`cur, this`value, this`waiters, this`want, this`woken, this`count
      modifies this`locks, this`inside, this`holding
      ensures Valid() && done == (0 < old(value)[l])
      ensures done ==> Holds(locks, l, cur) && cur == old(cur) && cur !in want && inside == old(inside)[l := {cur}]
      ensures !done ==> locks == old(locks) && old(cur) in want && want[old(cur)] == l
    {
      hide Core, Prio, LocksOk;
      done := Obtain(l);
    }

    /** The lock's bookkeeping in `lock_release`, before the sema_up. */
    method Relinquish(l: int)
      requires Steady() && LocksOk(locks, value, inside, holding, prio.Keys) && Holds(locks, l, cur) &&
        l in waiters && l in inside
      modifies this`prio, this`locks, this`inside, this`holding
      ensures Steady() && l in value && LocksOk(locks, value[l := value[l] + 1], inside, holding, prio.Keys) &&
        prio.Keys == old(prio.Keys)
      ensures locks == old(locks)[l := Lock(None, if |waiters[l]| > 1 then Prio(old(prio), waiters[l][1]) else 0)]
      ensures inside == old(inside)[l := old(inside)[l] - {cur}] &&
        holding == old(holding)[cur := Without(Held(old(holding), cur), l)]
      ensures prio == old(prio)[cur := Restored(locks, Held(holding, cur), Prio(oldPrio, cur))]
    {
      hide Placed, Ordered, CountsOk, WokenOk, Prio, LocksOk, Restored, Without;
      SteadyKnows();
      var max := if |waiters[l]| > 1 then Prio(prio, waiters[l][1]) else 0;
      RelinquishFacts(locks, value, inside, holding, prio.Keys, l, cur, max);
      ghost var keys := prio.Keys;
      locks := locks[l := Lock(None, max)];
      holding := holding[cur := Without(Held(holding, cur), l)];
      inside := inside[l := inside[l] - {cur}];
      SetCurrentPriority(Restored(locks, Held(holding, cur), Prio(oldPrio, cur)));
      assert prio.Keys == keys;
    }

    /**
     * `lock_release`: the lock is free again, the caller is back to its own or
     * the highest remaining donated priority, and the best waiter is ready.
     */
    method LockRelease(l: int) returns (woke: Option<int>)
      requires Valid() && Holds(locks, l, cur) && l in value && l in waiters && l in inside
      modifies this`status, this`ready, this`cur, this`prio, this`stamp, this`clock, this`value, this`waiters
      modifies this`woken, this`count, this`locks, this`inside, this`holding, this`yieldOnReturn
      ensures Valid() && RunsHighest() && inside == old(inside)[l := {}] &&
        holding == old(holding)[old(cur) := Without(Held(old(holding), old(cur)), l)]
      ensures locks == old(locks)[l := Lock(None, if |old(waiters)[l]| > 1 then Prio(old(prio), old(waiters)[l][1])
        else 0)]
      ensures prio == old(prio)[old(cur) := Restored(locks, Held(holding, old(cur)), Prio(oldPrio, old(cur)))]
      ensures woke.None? <==> old(waiters)[l] == []
      ensures woke.Some? ==> Highest(old(waiters)[l], prio, woke.value)
      ensures waiters == (if woke.Some? then old(waiters)[l := Rest(SortWaiters(old(waiters)[l], prio))]
        else old(waiters))
    {
      hide Core, Prio, LocksOk, Restored, Highest, SortWaiters, Rest, Without;
      LockKnown(locks, value, inside, holding, prio.Keys, l);
      Relinquish(l);
      woke := Up(l, false);
      LockKnown(locks, value, inside, holding, prio.Keys, l);
    }

    /** `thread_set_priority` */
    method ThreadSetPriority(p: int)
      requires Valid() && cur in prio
      modifies this`status, this`ready, this`cur, this`prio, this`oldPrio, this`stamp, this`clock, this`yieldOnReturn
      ensures Valid() && RunsHighest() && oldPrio == old(oldPrio)[old(cur) := p]
      ensures prio == if old(prio)[old(cur)] == Prio(old(oldPrio), old(cur)) then old(prio)[old(cur) := p]
        else old(prio)
    {
      hide Placed, Ordered, CountsOk, WokenOk, Prio, LocksOk;
      if prio[cur] == Prio(oldPrio, cur) {
        SetCurrentPriority(p);
        assert prio.Keys == old(prio.Keys);
      }
      oldPrio := oldPrio[cur := p];
      CheckPreemption(false);
    }

    lemma SteadyKnows()
      requires Steady()
      ensures cur in prio
    {
      hide Ordered, CountsOk, WokenOk, ReadyOk, WaitersOk;
      assert Is(status, cur, Running);
    }
  }

  lemma PickKnown(status: map<int, Status>, ready: seq<int>, waiters: map<int, seq<int>>, want: map<int, int>,
                  idle: int)
    requires Placed(status, ready, waiters, want, idle, {})
    ensures NextToRun(ready, idle) in status
  {
    hide WaitersOk, Once;
    assert ready != [] ==> ready[0] in ready;
  }

  lemma RunningFacts(status: map<int, Status>, ready: seq<int>, waiters: map<int, seq<int>>, want: map<int, int>,
                     idle: int, c: int)
    requires Placed(status, ready, waiters, want, idle, {c})
    ensures c in status && Once(ready) && c !in ready && forall s :: s in waiters ==>
      Once(waiters[s]) && c !in waiters[s]
  {
    hide Once;
    assert Is(status, c, Running);
    forall s | s in waiters ensures c !in waiters[s] {
      assert c in waiters[s] <==> Is(status, c, Blocked) && Wants(want, c, s);
    }
  }

  lemma FreshFacts(status: map<int, Status>, ready: seq<int>, waiters: map<int, seq<int>>, want: map<int, int>,
                   idle: int, c: int, t: int)
    requires Placed(status, ready, waiters, want, idle, {c}) && t !in status
    ensures Once(ready) && t !in ready
  {
    hide Once, WaitersOk;
  }

  lemma PickNot(status: map<int, Status>, ready: seq<int>, waiters: map<int, seq<int>>, want: map<int, int>,
                idle: int, c: int)
    requires Placed(status, ready, waiters, want, idle, {}) && c !in status
    ensures c != NextToRun(ready, idle)
  {
    PickKnown(status, ready, waiters, want, idle);
  }

  lemma SamePrio(ready: seq<int>, prio: map<int, int>, t: int, p: int)
    requires t !in ready
    ensures forall x :: x in ready ==> Prio(prio[t := p], x) == Prio(prio, x)
  {}

  lemma DropPrio(ready: seq<int>, prio: map<int, int>, t: int)
    requires t !in ready
    ensures forall x :: x in ready ==> Prio(prio - {t}, x) == Prio(prio, x)
  {}

  lemma CountKeys(value: map<int, int>, waiters: map<int, seq<int>>, woken: map<int, set<int>>, count: map<int, Count>)
    requires CountsOk(value, waiters, woken, count)
    ensures value.Keys == waiters.Keys == woken.Keys == count.Keys && forall s :: s in value ==> 0 <= value[s]
  {
    forall s | s in value ensures 0 <= value[s] { assert SemaOk(value[s], waiters[s], woken[s], count[s]); }
  }

  /** t is one of w, and none of w has a higher priority. */
  ghost predicate Highest(w: seq<int>, prio: map<int, int>, t: int) {
    t in w && forall x :: x in w ==> Prio(prio, x) <= Prio(prio, t)
  }

  lemma WakeFacts(status: map<int, Status>, ready: seq<int>, waiters: map<int, seq<int>>, want: map<int, int>,
                  idle: int, c: int, s: int, prio: map<int, int>)
    requires Placed(status, ready, waiters, want, idle, {c}) && s in waiters && waiters[s] != []
    ensures var sorted := SortWaiters(waiters[s], prio); var t := sorted[0];
            && t in waiters[s] && Highest(waiters[s], prio, t) && Once(Rest(sorted)) &&
                 Adds(Rest(sorted), waiters[s], t) && t !in Rest(sorted)
            && Wants(want, t, s) && t in status && t !in ready && Adds(ready, Enter(ready, prio, t), t)
  {
    hide Prio, Enter, SortWaiters, Once;
    var w := waiters[s];
    var sorted := SortWaiters(w, prio);
    SortWaitersIs(w, prio);
    RestOnce(sorted);
    var t := sorted[0];
    assert t in sorted;
    assert t in w;
    assert Is(status, t, Blocked);
    SortedHead(sorted, prio);
    EnterAdds(ready, prio, t);
  }

  lemma SortedHead(r: seq<int>, prio: map<int, int>)
    requires r != [] && forall i, j :: 0 <= i < j < |r| ==> Prio(prio, r[i]) >= Prio(prio, r[j])
    ensures forall x :: x in r ==> Prio(prio, x) <= Prio(prio, r[0])
  {
    hide Prio;
  }

  /** A semaphore that is not a lock's leaves the locks alone. */
  lemma FrameLocks(locks: map<int, Lock>, value: map<int, int>, value': map<int, int>, inside: map<int, set<int>>,
                   holding: map<int, seq<int>>, threads: set<int>, s: int)
    requires LocksOk(locks, value, inside, holding, threads) && (s !in locks || s !in value || value' == value)
    requires forall r :: r in value && r != s ==> r in value' && value'[r] == value[r]
    ensures LocksOk(locks, value', inside, holding, threads)
  {
    hide Once, Held;
  }

  /** compare_priorities_lock */
  function ByMax(locks: map<int, Lock>): (int, int) -> bool {
    (a, b) => (if a in locks then locks[a].maxPriority else 0) < (if b in locks then locks[b].maxPriority else 0)
  }

  lemma InsertAdds(less: (int, int) -> bool, s: seq<int>, x: int)
    requires Once(s) && x !in s
    ensures Adds(s, Runs.InsertOrdered(less, s, x), x)
  {
    hide Runs.InsertOrdered;
    var p := Runs.InsertedAt(less, s, x);
    var r := s[..p] + [x] + s[p..];
    assert s == s[..p] + s[p..];
    assert forall i :: 0 <= i < |r| ==> r[i] == if i < p then s[i] else if i == p then x else s[i - 1];
  }

  lemma LockKnown(locks: map<int, Lock>, value: map<int, int>, inside: map<int, set<int>>, holding: map<int, seq<int>>,
                  threads: set<int>, l: int)
    requires LocksOk(locks, value, inside, holding, threads)
    ensures l in locks ==> l in value && l in inside && LockOk(locks[l], value[l], inside[l])
  {
    hide Once, Held, LockOk;
  }

  lemma InitLocks(locks: map<int, Lock>, value: map<int, int>, inside: map<int, set<int>>, holding: map<int, seq<int>>,
                  threads: set<int>, l: int)
    requires LocksOk(locks, value, inside, holding, threads) && l !in locks && l in value && value[l] == 1
    ensures LocksOk(locks[l := Lock(None, 0)], value, inside[l := {}], holding, threads)
  {
    hide Once, Held;
    var locks' := locks[l := Lock(None, 0)];
    forall m, t ensures Holds(locks', m, t) <==> Holds(locks, m, t) {}
  }

  lemma ObtainFacts(locks: map<int, Lock>, value: map<int, int>, inside: map<int, set<int>>,
                    holding: map<int, seq<int>>, threads: set<int>, l: int, c: int)
    requires LocksOk(locks, value, inside, holding, threads) && l in locks && l in value && 0 < value[l] && c in threads
    ensures locks[l].holder == None && l in inside && inside[l] == {}
    ensures LocksOk(locks[l := Lock(Some(c), locks[l].maxPriority)], value[l := value[l] - 1],
      inside[l := inside[l] + {c}],
              holding[c := Runs.InsertOrdered(ByMax(locks), Held(holding, c), l)], threads)
  {
    hide Once, ByMax, Runs.InsertOrdered;
    var list := Runs.InsertOrdered(ByMax(locks), Held(holding, c), l);
    assert LockOk(locks[l], value[l], inside[l]);
    assert l in Held(holding, c) <==> Holds(locks, l, c);
    InsertAdds(ByMax(locks), Held(holding, c), l);
    HeldBy(locks, value, inside, holding, threads, l, c, list);
  }

  lemma HeldBy(locks: map<int, Lock>, value: map<int, int>, inside: map<int, set<int>>, holding: map<int, seq<int>>,
               threads: set<int>, l: int, c: int, list: seq<int>)
    requires LocksOk(locks, value, inside, holding, threads) && l in locks && locks[l].holder == None &&
      c in threads && Adds(Held(holding, c), list, l)
    ensures LocksOk(locks[l := Lock(Some(c), locks[l].maxPriority)], value[l := 0], inside[l := {c}],
      holding[c := list], threads)
  {
    hide Once;
    var locks', holding' := locks[l := Lock(Some(c), locks[l].maxPriority)], holding[c := list];
    forall m, t ensures Holds(locks', m, t) <==> Holds(locks, m, t) || (m == l && t == c) {}
    forall t, m ensures m in Held(holding', t) <==> Holds(locks', m, t) {
      assert m in Held(holding, t) <==> Holds(locks, m, t);
    }
    forall t ensures Once(Held(holding', t)) { assert t == c || Once(Held(holding, t)); }
  }

  // ----- donation -----

  function WaitsOf(locks: map<int, Lock>, waiting: map<int, int>): Donation.Waits {
    Donation.Waits(map m | m in locks :: locks[m].holder, waiting)
  }

  /** No thread on the ready list receives the donation. */
  ghost predicate NoReadyDonee(ready: seq<int>, prio: map<int, int>, w: Donation.Waits, l: int, p: int) {
    forall t :: t in ready ==> !Donation.Reached(prio, w, l, p, t)
  }

  ghost predicate SameHolders(locks: map<int, Lock>, locks': map<int, Lock>) {
    locks'.Keys == locks.Keys && forall m :: m in locks ==> locks'[m].holder == locks[m].holder
  }

  /** max_priority only grows, and only to the donor's priority. */
  ghost predicate MaxRaised(locks: map<int, Lock>, locks': map<int, Lock>, p: int) {
    forall m :: m in locks && m in locks' ==>
      locks'[m].maxPriority == locks[m].maxPriority ||
      locks[m].maxPriority < locks'[m].maxPriority == p
  }

  lemma WaitsWell(locks: map<int, Lock>, value: map<int, int>, inside: map<int, set<int>>, holding: map<int, seq<int>>,
                  prio: map<int, int>, waiting: map<int, int>)
    requires LocksOk(locks, value, inside, holding, prio.Keys) && forall t :: t in waiting ==> waiting[t] in locks
    ensures Donation.Wellformed(prio, WaitsOf(locks, waiting))
  {
    hide Once, Held, LockOk;
    forall l | l in locks && locks[l].holder.Some? ensures locks[l].holder.value in prio {
      assert Holds(locks, l, locks[l].holder.value);
    }
  }

  lemma IsAfterWalk(prio: map<int, int>, prio': map<int, int>, w: Donation.Waits, l: int, p: int)
    requires prio'.Keys == prio.Keys && forall t :: t in prio ==>
      prio'[t] == if Donation.Reached(prio, w, l, p, t) then p else prio[t]
    ensures Donation.AfterWalk(prio, prio', w, l, p)
  {
    hide Donation.Reached;
  }

  lemma DonationOrdered(ready: seq<int>, prio: map<int, int>, prio': map<int, int>, w: Donation.Waits, l: int, p: int,
                        stamp: map<int, int>, clock: int)
    requires Ordered(ready, prio, stamp, clock) && Donation.AfterWalk(prio, prio', w, l, p) &&
      NoReadyDonee(ready, prio, w, l, p)
    ensures Ordered(ready, prio', stamp, clock)
  {
    hide Donation.Reached, Ordered;
    SameOrdered(ready, prio, prio', stamp, clock);
  }

  lemma HoldersLocksOk(locks: map<int, Lock>, locks': map<int, Lock>, value: map<int, int>, inside: map<int, set<int>>,
                       holding: map<int, seq<int>>, threads: set<int>)
    requires LocksOk(locks, value, inside, holding, threads) && SameHolders(locks, locks')
    ensures LocksOk(locks', value, inside, holding, threads)
  {
    hide Once, Held;
    forall m, t ensures Holds(locks', m, t) <==> Holds(locks, m, t) {}
  }

  // ----- releasing a lock -----

  function Greater(a: int, b: int): int { if a > b then a else b }

  /** The priority after a release: the thread's own, or the highest max_priority among the locks it still holds. */
  function Restored(locks: map<int, Lock>, held: seq<int>, own: int): int {
    if held == [] then own
      else Greater(Restored(locks, held[1..], own), if held[0] in locks then locks[held[0]].maxPriority else own)
  }

  lemma {:induction false} RestoredIs(locks: map<int, Lock>, held: seq<int>, own: int)
    ensures own <= Restored(locks, held, own)
    ensures forall l :: l in held && l in locks ==> locks[l].maxPriority <= Restored(locks, held, own)
    ensures Restored(locks, held, own) == own ||
      exists l :: l in held && l in locks && locks[l].maxPriority == Restored(locks, held, own)
  {
    if held != [] {
      RestoredIs(locks, held[1..], own);
      var rest := Restored(locks, held[1..], own);
      if Restored(locks, held, own) == rest != own {
        var l :| l in held[1..] && l in locks && locks[l].maxPriority == rest;
        assert l in held;
      } else if Restored(locks, held, own) != own {
        var l := held[0];
        assert l in held && l in locks;
      }
    }
  }

  lemma RelinquishFacts(locks: map<int, Lock>, value: map<int, int>, inside: map<int, set<int>>,
                        holding: map<int, seq<int>>, threads: set<int>, l: int, c: int, max: int)
    requires LocksOk(locks, value, inside, holding, threads) && Holds(locks, l, c)
    ensures l in inside && l in value
    ensures LocksOk(locks[l := Lock(None, max)], value[l := value[l] + 1], inside[l := inside[l] - {c}],
      holding[c := Without(Held(holding, c), l)], threads)
  {
    hide Once, Without;
    assert LockOk(locks[l], value[l], inside[l]);
    var locks', holding' := locks[l := Lock(None, max)], holding[c := Without(Held(holding, c), l)];
    WithoutIs(Held(holding, c), l);
    forall m, t ensures Holds(locks', m, t) <==> Holds(locks, m, t) && m != l {}
    forall t, m ensures m in Held(holding', t) <==> Holds(locks', m, t) {
      assert m in Held(holding, t) <==> Holds(locks, m, t);
    }
    forall t ensures Once(Held(holding', t)) { assert t == c || Once(Held(holding, t)); }
  }

  /** At most one thread is between lock_acquire's return and lock_release. */
  lemma MutualExclusion(locks: map<int, Lock>, value: map<int, int>, inside: map<int, set<int>>,
                        holding: map<int, seq<int>>, threads: set<int>, l: int, t: int, u: int)
    requires LocksOk(locks, value, inside, holding, threads) && l in inside && t in inside[l] && u in inside[l]
    ensures t == u && Holds(locks, l, t) && l in value && value[l] == 0 && l in Held(holding, t)
  {
    hide Once;
    LockKnown(locks, value, inside, holding, threads, l);
    assert l in Held(holding, t) <==> Holds(locks, l, t);
  }

  /** No lost wake-up: while a unit is left and threads wait, some woken thread is about to retry. */
  lemma NoLostWakeup(status: map<int, Status>, ready: seq<int>, value: map<int, int>, waiters: map<int, seq<int>>,
                     want: map<int, int>, woken: map<int, set<int>>,
                     count: map<int, Count>, idle: int, cur: int, s: int)
    requires Placed(status, ready, waiters, want, idle, {cur}) && CountsOk(value, waiters, woken, count) &&
      WokenOk(waiters, woken, want)
    requires s in value && waiters[s] != [] && 0 < value[s]
    ensures exists t :: Wants(want, t, s) && (t == cur || t in ready)
  {
    hide Once;
    assert SemaOk(value[s], waiters[s], woken[s], count[s]);
    var t := Sets.Member(woken[s]);
    assert t in waiters[s] <==> Is(status, t, Blocked) && Wants(want, t, s);
    assert Is(status, t, status[t]);
  }
}
