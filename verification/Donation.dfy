/**
 * The donation walk of lock_acquire (pintos/src/threads/synch.c): from the
 * wanted lock to its holder, to the lock that thread waits for first, and so on.
 */
module Donation {
  import opened Options

  /** Who holds each lock, and the first lock in each thread's lock_waiting list, if any. */
  datatype Waits = Waits(holder: map<int, Option<int>>, waiting: map<int, int>)

  function HolderOf(w: Waits, l: int): Option<int> { if l in w.holder then w.holder[l] else None }

  /** The k-th thread of the chain that starts at lock l. */
  function At(w: Waits, l: int, k: nat): Option<int> {
    if k == 0 then HolderOf(w, l)
    else match At(w, l, k - 1)
      case None => None
      case Some(t) => Next(w, t)
  }

  function Next(w: Waits, t: int): Option<int> { if t in w.waiting then HolderOf(w, w.waiting[t]) else None }

  /** The k-th lock of the chain; the lock stays the last one where the chain ends. */
  function LockAt(w: Waits, l: int, k: nat): int {
    if k == 0 then l
    else match At(w, l, k - 1)
      case None => LockAt(w, l, k - 1)
      case Some(t) => if t in w.waiting then w.waiting[t] else LockAt(w, l, k - 1)
  }

  function Prio(prio: map<int, int>, t: int): int { if t in prio then prio[t] else 0 }

  /** The chain's first k + 1 threads all exist and are below priority p. */
  ghost predicate Low(prio: map<int, int>, w: Waits, l: int, p: int, k: nat) {
    forall j: nat {:trigger At(w, l, j)} :: j <= k ==> At(w, l, j).Some? && Prio(prio, At(w, l, j).value) < p
  }

  /** The walk reaches thread t while everything before it was below p too. */
  ghost predicate Reached(prio: map<int, int>, w: Waits, l: int, p: int, t: int) {
    exists k: nat :: Low(prio, w, l, p, k) && At(w, l, k) == Some(t)
  }

  ghost predicate ReachedLock(prio: map<int, int>, w: Waits, l: int, p: int, m: int) {
    exists k: nat :: Low(prio, w, l, p, k) && LockAt(w, l, k) == m
  }

  ghost predicate Wellformed(prio: map<int, int>, w: Waits) {
    && (forall l :: l in w.holder && w.holder[l].Some? ==> w.holder[l].value in prio)
    && (forall t :: t in w.waiting ==> w.waiting[t] in w.holder)
  }

  lemma {:induction false} OnChainKnown(prio: map<int, int>, w: Waits, l: int, k: nat)
    requires Wellformed(prio, w) && l in w.holder
    ensures At(w, l, k).Some? ==> At(w, l, k).value in prio
    ensures LockAt(w, l, k) in w.holder
  {
    if k > 0 { OnChainKnown(prio, w, l, k - 1); }
  }

  /** Once the chain meets a thread it has visited, it stays among the visited ones. */
  lemma {:induction false} Revisits(w: Waits, l: int, n: nat, i: nat)
    requires n <= i && exists j: nat :: j < n && At(w, l, j) == At(w, l, n)
    ensures exists j: nat :: j < n && At(w, l, j) == At(w, l, i)
  {
    if i > n {
      Revisits(w, l, n, i - 1);
      var j: nat :| j < n && At(w, l, j) == At(w, l, i - 1);
      assert At(w, l, j + 1) == At(w, l, i);
      if j + 1 == n {}
    }
  }


  /** The threads the walk may still raise. */
  function Below(prio: map<int, int>, p: int): set<int> { set t | t in prio && prio[t] < p }

  lemma RaiseShrinks(prio: map<int, int>, p: int, t: int)
    requires t in prio && prio[t] < p
    ensures |Below(prio[t := p], p)| < |Below(prio, p)|
  {
    assert Below(prio, p) == Below(prio[t := p], p) + {t};
  }

  /** What the walk has done after visiting k threads. */
  ghost predicate Walked(prio0: map<int, int>, prio: map<int, int>, w: Waits, l: int, p: int, k: nat) {
    && prio.Keys == prio0.Keys
    && (forall j: nat {:trigger At(w, l, j)} :: j < k ==> At(w, l, j).Some? && Prio(prio0, At(w, l, j).value) < p)
    && (forall t :: t in prio0 ==> prio[t] == if Visited(w, l, k, t) then p else prio0[t])
  }

  ghost predicate Visited(w: Waits, l: int, k: nat, t: int) {
    exists j: nat :: j < k && At(w, l, j) == Some(t)
  }

  lemma WalkStep(prio0: map<int, int>, prio: map<int, int>, w: Waits, l: int, p: int, k: nat)
    requires Walked(prio0, prio, w, l, p, k) && At(w, l, k).Some? && At(w, l, k).value in prio &&
      prio[At(w, l, k).value] < p
    ensures Walked(prio0, prio[At(w, l, k).value := p], w, l, p, k + 1)
    ensures Low(prio0, w, l, p, k) && !Visited(w, l, k, At(w, l, k).value)
  {
    hide At;
    var t := At(w, l, k).value;
    assert !Visited(w, l, k, t);
    forall x ensures Visited(w, l, k + 1, x) <==> Visited(w, l, k, x) || x == t {}
  }

  /** When the walk stops, it has raised exactly the threads it can reach. */
  lemma WalkEnd(prio0: map<int, int>, prio: map<int, int>, w: Waits, l: int, p: int, k: nat)
    requires Walked(prio0, prio, w, l, p, k) &&
      (At(w, l, k).Some? ==> At(w, l, k).value in prio && p <= prio[At(w, l, k).value])
    ensures forall t :: t in prio0 ==> prio[t] == if Reached(prio0, w, l, p, t) then p else prio0[t]
  {
    forall t | t in prio0 ensures Reached(prio0, w, l, p, t) <==> Visited(w, l, k, t) {
      if Visited(w, l, k, t) {
        var j: nat :| j < k && At(w, l, j) == Some(t);
        assert Low(prio0, w, l, p, j);
      }
      if Reached(prio0, w, l, p, t) {
        var i: nat :| Low(prio0, w, l, p, i) && At(w, l, i) == Some(t);
        if k <= i { StopsOnVisited(prio0, prio, w, l, p, k, i); }
      }
    }
  }

  lemma StopsOnVisited(prio0: map<int, int>, prio: map<int, int>, w: Waits, l: int, p: int, k: nat, i: nat)
    requires Walked(prio0, prio, w, l, p, k) && k <= i && Low(prio0, w, l, p, i)
    requires At(w, l, k).Some? ==> At(w, l, k).value in prio && p <= prio[At(w, l, k).value]
    ensures At(w, l, i).Some? && Visited(w, l, k, At(w, l, i).value)
  {
    assert At(w, l, k).Some? && Prio(prio0, At(w, l, k).value) < p;
    assert Visited(w, l, k, At(w, l, k).value);
    Revisits(w, l, k, i);
  }

  /**
   * The walk ends even on cyclic chains, since each round raises a thread that
   * was below the donor.  It raises exactly the threads it reaches, to the
   * donor's priority, and lowers nothing.
   */
  method Walk(prio0: map<int, int>, max0: map<int, int>, w: Waits, donor: int, wanted: int)
    returns (prio: map<int, int>, max: map<int, int>)
    requires donor in prio0 && wanted in w.holder && Wellformed(prio0, w) && max0.Keys == w.holder.Keys
    ensures prio.Keys == prio0.Keys && max.Keys == max0.Keys
    ensures forall t :: t in prio0 ==> prio[t] == if Reached(prio0, w, wanted, prio0[donor], t) then prio0[donor]
      else prio0[t]
    ensures forall m :: m in max0 ==>
      max[m] == max0[m] ||
      (max0[m] < max[m] == prio0[donor] && ReachedLock(prio0, w, wanted, prio0[donor], m))
    ensures Low(prio0, w, wanted, prio0[donor], 0) ==> prio0[donor] <= max[wanted]
  {
    hide Wellformed, Low, Walked, Reached, At, LockAt;
    prio, max := prio0, max0;
    ghost var p, k := prio0[donor], 0;
    var l, t := wanted, HolderOf(w, wanted);
    WalkStart(prio0, w, l, p);
    while t.Some? && prio[donor] > prio[t.value]
      invariant max.Keys == max0.Keys && prio.Keys == prio0.Keys && prio[donor] == p
      invariant Walked(prio0, prio, w, wanted, p, k)
      invariant t == At(w, wanted, k) && l == LockAt(w, wanted, k) && l in max && (t.Some? ==> t.value in prio)
      invariant forall m :: m in max0 ==>
        max[m] == max0[m] || (max0[m] < max[m] == p && ReachedLock(prio0, w, wanted, p, m))
      invariant if k == 0 then prio == prio0 else p <= max[wanted]
      decreases |Below(prio, p)|
    {
      WalkStep(prio0, prio, w, wanted, p, k);
      RaiseShrinks(prio, p, t.value);
      prio := prio[t.value := prio[donor]];
      if prio[t.value] > max[l] { max := max[l := prio[t.value]]; }
      assert ReachedLock(prio0, w, wanted, p, l);
      ChainNext(prio0, w, wanted, k);
      k := k + 1;
      if t.value !in w.waiting { t := None; break; }
      l := w.waiting[t.value];
      t := HolderOf(w, l);
    }
    WalkEnd(prio0, prio, w, wanted, p, k);
  }

  lemma WalkStart(prio: map<int, int>, w: Waits, l: int, p: int)
    requires Wellformed(prio, w) && l in w.holder
    ensures Walked(prio, prio, w, l, p, 0) && At(w, l, 0) == HolderOf(w, l) && LockAt(w, l, 0) == l
    ensures At(w, l, 0).Some? ==> At(w, l, 0).value in prio
    ensures Low(prio, w, l, p, 0) <==> At(w, l, 0).Some? && Prio(prio, At(w, l, 0).value) < p
  {}

  lemma ChainNext(prio: map<int, int>, w: Waits, l: int, k: nat)
    requires Wellformed(prio, w) && l in w.holder && At(w, l, k).Some?
    ensures var t := At(w, l, k).value; if t in w.waiting
              then At(w, l, k + 1) == HolderOf(w, w.waiting[t]) && LockAt(w, l, k + 1) == w.waiting[t] &&
                w.waiting[t] in w.holder
              else At(w, l, k + 1) == None
    ensures At(w, l, k + 1).Some? ==> At(w, l, k + 1).value in prio
  {
    OnChainKnown(prio, w, l, k + 1);
  }

  /** prio is what the walk leaves of prio0. */
  ghost predicate AfterWalk(prio0: map<int, int>, prio: map<int, int>, w: Waits, l: int, p: int) {
    prio.Keys == prio0.Keys && forall t :: t in prio0 ==> prio[t] == if Reached(prio0, w, l, p, t) then p else prio0[t]
  }

  lemma NothingLowered(prio0: map<int, int>, prio: map<int, int>, w: Waits, l: int, p: int, t: int)
    requires AfterWalk(prio0, prio, w, l, p) && t in prio0
    ensures prio0[t] <= prio[t] && (prio0[t] < prio[t] ==> prio[t] == p)
  {}

  /** The chain's thread k, below p, comes after thread j, which is not. */
  predicate Behind(prio: map<int, int>, w: Waits, l: int, p: int, j: nat, k: nat) {
    && j < k && At(w, l, j).Some? && At(w, l, k).Some?
    && p <= Prio(prio, At(w, l, j).value) && Prio(prio, At(w, l, k).value) < p
  }

  ghost predicate PassedBefore(w: Waits, l: int, j: nat, k: nat) {
    exists i: nat :: i < j && At(w, l, i) == At(w, l, k)
  }

  /** Every low thread behind a thread at or above p on the chain was also passed before that one. */
  ghost predicate NoneShielded(prio: map<int, int>, w: Waits, l: int, p: int) {
    forall j: nat, k: nat :: Behind(prio, w, l, p, j, k) ==> PassedBefore(w, l, j, k)
  }

  /** The chain's thread k, if there is one, is at or above p. */
  predicate RaisedAt(prio: map<int, int>, w: Waits, l: int, p: int, k: nat) {
    At(w, l, k).Some? ==> p <= Prio(prio, At(w, l, k).value)
  }

  /** The chain's thread k is reached by the walk if it is below p. */
  ghost predicate LowReached(prio: map<int, int>, w: Waits, l: int, p: int, k: nat) {
    At(w, l, k).Some? && Prio(prio, At(w, l, k).value) < p ==> Reached(prio, w, l, p, At(w, l, k).value)
  }

  lemma {:induction false} ChainPrefix(w: Waits, l: int, j: nat, k: nat)
    requires j <= k && At(w, l, k).Some?
    ensures At(w, l, j).Some?
  {
    if j < k { ChainPrefix(w, l, j, k - 1); }
  }

  /** The first thread of the chain that is not below p, or k if there is none before it. */
  lemma {:induction false} FirstHigh(prio: map<int, int>, w: Waits, l: int, p: int, k: nat) returns (j: nat)
    requires At(w, l, k).Some?
    ensures j <= k && forall i: nat {:trigger At(w, l, i)} :: i < j ==>
      At(w, l, i).Some? && Prio(prio, At(w, l, i).value) < p
    ensures j < k ==> At(w, l, j).Some? && p <= Prio(prio, At(w, l, j).value)
  {
    hide At;
    if k == 0 {
      j := 0;
    } else {
      ChainPrefix(w, l, k - 1, k);
      j := FirstHigh(prio, w, l, p, k - 1);
      if j == k - 1 && Prio(prio, At(w, l, k - 1).value) < p { j := k; }
    }
  }

  lemma UnshieldedReached(prio: map<int, int>, w: Waits, l: int, p: int, k: nat)
    requires NoneShielded(prio, w, l, p)
    ensures LowReached(prio, w, l, p, k)
  {
    hide At;
    if At(w, l, k).Some? && Prio(prio, At(w, l, k).value) < p {
      var j := FirstHigh(prio, w, l, p, k);
      if j < k {
        assert Behind(prio, w, l, p, j, k);
        var i: nat :| i < j && At(w, l, i) == At(w, l, k);
        assert Low(prio, w, l, p, i);
      } else {
        assert Low(prio, w, l, p, k);
      }
    }
  }

  lemma ReachedUnshielded(prio: map<int, int>, w: Waits, l: int, p: int, j: nat, k: nat)
    requires LowReached(prio, w, l, p, k) && Behind(prio, w, l, p, j, k)
    ensures PassedBefore(w, l, j, k)
  {
    hide At;
    var m: nat :| Low(prio, w, l, p, m) && At(w, l, m) == Some(At(w, l, k).value);
    assert m < j;
  }

  /** A chain shape a caller can look at decides whether the walk reaches every low thread. */
  lemma ReachesAllLow(prio: map<int, int>, w: Waits, l: int, p: int)
    ensures NoneShielded(prio, w, l, p) <==> forall k: nat :: LowReached(prio, w, l, p, k)
  {
    hide LowReached, Behind, PassedBefore;
    if NoneShielded(prio, w, l, p) {
      forall k: nat ensures LowReached(prio, w, l, p, k) { UnshieldedReached(prio, w, l, p, k); }
    }
    if forall k: nat :: LowReached(prio, w, l, p, k) {
      forall j: nat, k: nat | Behind(prio, w, l, p, j, k) ensures PassedBefore(w, l, j, k) {
        ReachedUnshielded(prio, w, l, p, j, k);
      }
    }
  }

  /**
   * Every thread on the chain ends at or above the donor if and only if no
   * thread at or above it shields a lower one that the chain has not passed yet.
   */
  lemma WholeChainRaised(prio0: map<int, int>, prio: map<int, int>, w: Waits, l: int, p: int)
    requires AfterWalk(prio0, prio, w, l, p) && Wellformed(prio0, w) && l in w.holder
    ensures (forall k: nat :: RaisedAt(prio, w, l, p, k)) <==> NoneShielded(prio0, w, l, p)
  {
    hide Reached, Wellformed, At, NoneShielded;
    ReachesAllLow(prio0, w, l, p);
    forall k: nat ensures RaisedAt(prio, w, l, p, k) <==> LowReached(prio0, w, l, p, k) {
      OnChainKnown(prio0, w, l, k);
    }
  }

  /** Priorities that never decrease toward the holder leave no gap. */
  lemma MonotoneChainRaised(prio0: map<int, int>, prio: map<int, int>, w: Waits, l: int, p: int, k: nat)
    requires AfterWalk(prio0, prio, w, l, p) && Wellformed(prio0, w) && l in w.holder
    requires forall j: nat {:trigger At(w, l, j)} :: At(w, l, j).Some? && At(w, l, j + 1).Some? ==>
               Prio(prio0, At(w, l, j).value) <= Prio(prio0, At(w, l, j + 1).value)
    requires At(w, l, k).Some?
    ensures p <= Prio(prio, At(w, l, k).value)
  {
    OnChainKnown(prio0, w, l, k);
    if Prio(prio0, At(w, l, k).value) < p {
      MonotoneLow(prio0, w, l, p, k);
      assert Reached(prio0, w, l, p, At(w, l, k).value);
    }
  }

  lemma {:induction false} MonotoneLow(prio: map<int, int>, w: Waits, l: int, p: int, k: nat)
    requires forall j: nat {:trigger At(w, l, j)} :: At(w, l, j).Some? && At(w, l, j + 1).Some? ==>
               Prio(prio, At(w, l, j).value) <= Prio(prio, At(w, l, j + 1).value)
    requires At(w, l, k).Some? && Prio(prio, At(w, l, k).value) < p
    ensures Low(prio, w, l, p, k)
  {
    if k > 0 {
      assert At(w, l, k - 1 + 1).Some? && At(w, l, k - 1).Some?;
      MonotoneLow(prio, w, l, p, k - 1);
    }
  }

  /** A high thread in the middle of the chain shields the low one behind it. */
  lemma GapIsShielded()
    ensures var prio0, w := map[0 := 30, 1 := 40, 2 := 10], Waits(map[7 := Some(1), 8 := Some(2)], map[1 := 8]);
            Wellformed(prio0, w) && At(w, 7, 1) == Some(2) && !Reached(prio0, w, 7, 30, 2) &&
              !NoneShielded(prio0, w, 7, 30)
  {
    var prio0, w := map[0 := 30, 1 := 40, 2 := 10], Waits(map[7 := Some(1), 8 := Some(2)], map[1 := 8]);
    assert At(w, 7, 0) == Some(1);
    assert At(w, 7, 1) == Next(w, 1) == Some(2);
    assert forall k: nat :: !Low(prio0, w, 7, 30, k);
    assert Behind(prio0, w, 7, 30, 0, 1) && !PassedBefore(w, 7, 0, 1);
  }
}
