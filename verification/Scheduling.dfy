/**
 * What the thread table, the ready list and the semaphores of
 * pintos/src/threads/thread.c and synch.c say about each other, on values.
 */
module Scheduling {
  import opened Seqs

  datatype Status = Running | Ready | Blocked

  predicate Is(status: map<int, Status>, t: int, s: Status) { t in status && status[t] == s }

  predicate Wants(want: map<int, int>, t: int, s: int) { t in want && want[t] == s }

  // ----- every thread is in the one place its status says -----

  /** The running threads are those in `on`: one, or none in the middle of a switch. */
  ghost predicate StatusOk(status: map<int, Status>, want: map<int, int>, idle: int, on: set<int>) {
    && (forall t :: t in on <==> Is(status, t, Running))
    && idle in status && idle !in want && forall t :: t in want ==> t in status
  }

  ghost predicate ReadyOk(status: map<int, Status>, ready: seq<int>, idle: int) {
    Once(ready) && forall t :: t in ready <==> Is(status, t, Ready) && t != idle
  }

  /** A semaphore's waiters are the blocked threads that want it; `want` names the sema_down a thread is in. */
  ghost predicate WaitersOk(status: map<int, Status>, waiters: map<int, seq<int>>, want: map<int, int>, idle: int) {
    && (forall s :: s in waiters ==> Once(waiters[s]))
    && (forall s, t :: s in waiters ==> (t in waiters[s] <==> Is(status, t, Blocked) && Wants(want, t, s)))
    && (forall t :: Is(status, t, Blocked) && t != idle ==> t in want)
    && (forall t :: t in want ==> want[t] in waiters)
  }

  ghost predicate Placed(status: map<int, Status>, ready: seq<int>, waiters: map<int, seq<int>>, want: map<int, int>,
                         idle: int, on: set<int>) {
    StatusOk(status, want, idle, on) && ReadyOk(status, ready, idle) && WaitersOk(status, waiters, want, idle)
  }

  lemma StartPlaced(first: int, idle: int)
    requires first != idle
    ensures Placed(map[first := Running, idle := Blocked], [], map[], map[], idle, {first})
  {}

  /** How often t stands in list l. */
  function Occurs(l: seq<int>, t: int): nat { multiset(l)[t] }

  lemma {:induction false} OccursOnce(l: seq<int>, t: int)
    requires Once(l)
    ensures Occurs(l, t) == if t in l then 1 else 0
  {
    if l != [] {
      assert l == [l[0]] + l[1..];
      OccursOnce(l[1..], t);
      assert multiset(l) == multiset{l[0]} + multiset(l[1..]);
    }
  }

  /** A live thread other than the idle thread is in exactly the one place its status says. */
  lemma InOnePlace(status: map<int, Status>, ready: seq<int>, waiters: map<int, seq<int>>, want: map<int, int>,
                   idle: int, cur: int, t: int)
    requires Placed(status, ready, waiters, want, idle, {cur}) && t in status && t != idle
    ensures status[t] == Running <==> t == cur
    ensures Occurs(ready, t) == if status[t] == Ready then 1 else 0
    ensures forall s :: s in waiters ==> Occurs(waiters[s], t) == if status[t] == Blocked && Wants(want, t, s) then 1
      else 0
    ensures status[t] == Blocked ==> t in want && want[t] in waiters
  {
    hide Occurs, Once;
    assert Is(status, t, status[t]);
    OccursOnce(ready, t);
    forall s | s in waiters ensures Occurs(waiters[s], t) == if status[t] == Blocked && Wants(want, t, s) then 1
      else 0 {
      OccursOnce(waiters[s], t);
      assert t in waiters[s] <==> Is(status, t, Blocked) && Wants(want, t, s);
    }
  }

  /** l' is l with t added somewhere. */
  ghost predicate Adds(l: seq<int>, l': seq<int>, t: int) {
    Once(l') && t !in l && forall x :: x in l' <==> x in l || x == t
  }

  lemma BlockPlaced(status: map<int, Status>, ready: seq<int>, waiters: map<int, seq<int>>, want: map<int, int>,
                    idle: int, c: int, s: int, l: seq<int>)
    requires Placed(status, ready, waiters, want, idle, {c}) && c != idle && s in waiters && Adds(waiters[s], l, c)
    ensures Placed(status[c := Blocked], ready, waiters[s := l], want[c := s], idle, {})
  {
    hide Once;
    assert Is(status, c, Running);
    var status', waiters', want' := status[c := Blocked], waiters[s := l], want[c := s];
    forall r, t | r in waiters' ensures t in waiters'[r] <==> Is(status', t, Blocked) && Wants(want', t, r) {
      assert t in waiters[r] <==> Is(status, t, Blocked) && Wants(want, t, r);
    }
    forall t | Is(status', t, Blocked) && t != idle ensures t in want' { assert t == c || Is(status, t, Blocked); }
    forall t ensures t in ready <==> Is(status', t, Ready) && t != idle {
      assert t in ready <==> Is(status, t, Ready) && t != idle;
    }
    forall t ensures !Is(status', t, Running) { assert t == c || !Is(status, t, Running); }
  }

  lemma IdleStopPlaced(status: map<int, Status>, ready: seq<int>, waiters: map<int, seq<int>>, want: map<int, int>,
                       idle: int, st: Status)
    requires Placed(status, ready, waiters, want, idle, {idle}) && st != Running
    ensures Placed(status[idle := st], ready, waiters, want, idle, {})
  {
    hide Once;
    assert Is(status, idle, Running);
    var status' := status[idle := st];
    forall t, q | t != idle ensures Is(status', t, q) <==> Is(status, t, q) {}
    forall r, t | r in waiters ensures t in waiters[r] <==> Is(status', t, Blocked) && Wants(want, t, r) {
      assert t in waiters[r] <==> Is(status, t, Blocked) && Wants(want, t, r);
    }
  }

  lemma YieldPlaced(status: map<int, Status>, ready: seq<int>, waiters: map<int, seq<int>>, want: map<int, int>,
                    idle: int, c: int, l: seq<int>)
    requires Placed(status, ready, waiters, want, idle, {c}) && c != idle && Adds(ready, l, c)
    ensures Placed(status[c := Ready], l, waiters, want, idle, {})
  {
    hide Once;
    assert Is(status, c, Running);
    var status' := status[c := Ready];
    forall r, t | r in waiters ensures t in waiters[r] <==> Is(status', t, Blocked) && Wants(want, t, r) {
      assert t in waiters[r] <==> Is(status, t, Blocked) && Wants(want, t, r);
    }
    forall t | Is(status', t, Blocked) && t != idle ensures t in want { assert Is(status, t, Blocked); }
    forall t ensures t in l <==> Is(status', t, Ready) && t != idle {
      assert t in ready <==> Is(status, t, Ready) && t != idle;
    }
    forall t ensures !Is(status', t, Running) { assert t == c || !Is(status, t, Running); }
  }

  /** The thread that next_thread_to_run picks. */
  function NextToRun(ready: seq<int>, idle: int): int { if ready == [] then idle else ready[0] }

  function Rest(ready: seq<int>): seq<int> { if ready == [] then [] else ready[1..] }

  lemma PickPlaced(status: map<int, Status>, ready: seq<int>, waiters: map<int, seq<int>>, want: map<int, int>,
                   idle: int)
    requires Placed(status, ready, waiters, want, idle, {})
    ensures var t := NextToRun(ready, idle); Placed(status[t := Running], Rest(ready), waiters, want, idle, {t})
  {
    hide Once;
    var t := NextToRun(ready, idle);
    var status', ready' := status[t := Running], Rest(ready);
    RestOnce(ready);
    assert ready != [] ==> ready[0] in ready;
    assert t == idle || Is(status, t, Ready);
    assert t != idle ==> ready != [];
    forall x ensures x in ready' <==> Is(status', x, Ready) && x != idle {
      assert x in ready <==> Is(status, x, Ready) && x != idle;
    }
    forall r, x | r in waiters ensures x in waiters[r] <==> Is(status', x, Blocked) && Wants(want, x, r) {
      assert x in waiters[r] <==> Is(status, x, Blocked) && Wants(want, x, r);
    }
    forall x | Is(status', x, Blocked) && x != idle ensures x in want { assert Is(status, x, Blocked); }
    forall x ensures x in {t} <==> Is(status', x, Running) { assert !Is(status, x, Running); }
  }

  lemma RestOnce(l: seq<int>)
    requires Once(l)
    ensures Once(Rest(l)) && forall x :: x in Rest(l) <==> x in l && !(l != [] && x == l[0])
  {
    if l != [] { assert l == [l[0]] + l[1..]; }
  }

  lemma UnblockPlaced(status: map<int, Status>, ready: seq<int>, waiters: map<int, seq<int>>, want: map<int, int>,
                      idle: int, on: set<int>, s: int, t: int, w: seq<int>, l: seq<int>)
    requires Placed(status, ready, waiters, want, idle, on) && s in waiters && Adds(w, waiters[s], t) && Once(w) &&
      Adds(ready, l, t)
    ensures Placed(status[t := Ready], l, waiters[s := w], want, idle, on)
  {
    hide Once;
    assert t in waiters[s];
    assert Is(status, t, Blocked) && Wants(want, t, s);
    var status', waiters' := status[t := Ready], waiters[s := w];
    forall r, x | r in waiters' ensures x in waiters'[r] <==> Is(status', x, Blocked) && Wants(want, x, r) {
      assert x in waiters[r] <==> Is(status, x, Blocked) && Wants(want, x, r);
    }
    forall x | Is(status', x, Blocked) && x != idle ensures x in want { assert Is(status, x, Blocked); }
    forall x ensures x in on <==> Is(status', x, Running) { assert x in on <==> Is(status, x, Running); }
    forall x ensures x in l <==> Is(status', x, Ready) && x != idle {
      assert x in ready <==> Is(status, x, Ready) && x != idle;
    }
  }

  lemma InitPlaced(status: map<int, Status>, ready: seq<int>, waiters: map<int, seq<int>>, want: map<int, int>,
                   idle: int, on: set<int>, s: int)
    requires Placed(status, ready, waiters, want, idle, on) && s !in waiters
    ensures Placed(status, ready, waiters[s := []], want, idle, on) && forall t :: t in want ==> want[t] in waiters
  {
    forall r, x | r in waiters[s := []] ensures x in waiters[s := []][r] <==>
      Is(status, x, Blocked) && Wants(want, x, r) {
      if r != s { assert x in waiters[r] <==> Is(status, x, Blocked) && Wants(want, x, r); }
    }
  }

  lemma DonePlaced(status: map<int, Status>, ready: seq<int>, waiters: map<int, seq<int>>, want: map<int, int>,
                   idle: int, c: int)
    requires Placed(status, ready, waiters, want, idle, {c})
    ensures Placed(status, ready, waiters, want - {c}, idle, {c})
  {
    hide Once;
    assert Is(status, c, Running);
    forall r, x | r in waiters ensures x in waiters[r] <==> Is(status, x, Blocked) && Wants(want - {c}, x, r) {
      assert x in waiters[r] <==> Is(status, x, Blocked) && Wants(want, x, r);
    }
  }

  lemma CreatePlaced(status: map<int, Status>, ready: seq<int>, waiters: map<int, seq<int>>, want: map<int, int>,
                     idle: int, on: set<int>, t: int, l: seq<int>)
    requires Placed(status, ready, waiters, want, idle, on) && t !in status && Adds(ready, l, t)
    ensures Placed(status[t := Ready], l, waiters, want, idle, on)
  {
    hide Once;
    var status' := status[t := Ready];
    forall r, x | r in waiters ensures x in waiters[r] <==> Is(status', x, Blocked) && Wants(want, x, r) {
      assert x in waiters[r] <==> Is(status, x, Blocked) && Wants(want, x, r);
    }
    forall x | Is(status', x, Blocked) && x != idle ensures x in want { assert Is(status, x, Blocked); }
    forall x ensures x in on <==> Is(status', x, Running) { assert x in on <==> Is(status, x, Running); }
    forall x ensures x in l <==> Is(status', x, Ready) && x != idle {
      assert x in ready <==> Is(status, x, Ready) && x != idle;
    }
  }

  lemma ExitPlaced(status: map<int, Status>, ready: seq<int>, waiters: map<int, seq<int>>, want: map<int, int>,
                   idle: int, c: int)
    requires Placed(status, ready, waiters, want, idle, {c}) && c != idle && c !in want
    ensures Placed(status - {c}, ready, waiters, want, idle, {})
  {
    hide Once;
    assert Is(status, c, Running);
    var status' := status - {c};
    forall x, q ensures Is(status', x, q) <==> Is(status, x, q) && x != c {}
    forall r, x | r in waiters ensures x in waiters[r] <==> Is(status', x, Blocked) && Wants(want, x, r) {
      assert x in waiters[r] <==> Is(status, x, Blocked) && Wants(want, x, r);
    }
  }
}

/** The order of the ready list, and sema_up's choice among its waiters. */
module Priorities {
  import Runs
  import opened Scheduling
  import opened Seqs

  function Prio(prio: map<int, int>, t: int): int { if t in prio then prio[t] else 0 }

  /** compare_priorities */
  function ByPrio(prio: map<int, int>): (int, int) -> bool { (a, b) => Prio(prio, a) > Prio(prio, b) }

  /** When each ready thread was put on the list. */
  function Stamp(stamp: map<int, int>, t: int): int { if t in stamp then stamp[t] else 0 }

  predicate Ahead(prio: map<int, int>, stamp: map<int, int>, x: int, y: int) {
    Prio(prio, x) > Prio(prio, y) || (Prio(prio, x) == Prio(prio, y) && Stamp(stamp, x) < Stamp(stamp, y))
  }

  /** Highest priority first, first come first served among equals. */
  ghost predicate Ordered(ready: seq<int>, prio: map<int, int>, stamp: map<int, int>, clock: int) {
    && (forall i, j :: 0 <= i < j < |ready| ==> Ahead(prio, stamp, ready[i], ready[j]))
    && (forall i :: 0 <= i < |ready| ==> Stamp(stamp, ready[i]) < clock)
  }

  function Enter(ready: seq<int>, prio: map<int, int>, t: int): seq<int> { Runs.InsertOrdered(ByPrio(prio), ready, t) }

  lemma EnterAt(ready: seq<int>, prio: map<int, int>, t: int) returns (p: int, l: seq<int>)
    ensures l == Enter(ready, prio, t) && 0 <= p <= |ready| && |l| == |ready| + 1
    ensures forall i {:trigger l[i]} :: 0 <= i <= |ready| ==> l[i] == if i < p then ready[i] else if i == p then t
      else ready[i - 1]
    ensures (forall k :: 0 <= k < p ==> Prio(prio, t) <= Prio(prio, ready[k])) &&
      (p < |ready| ==> Prio(prio, t) > Prio(prio, ready[p]))
  {
    hide Prio, Runs.InsertOrdered;
    p := Runs.InsertedAt(ByPrio(prio), ready, t);
    l := Enter(ready, prio, t);
    forall k | 0 <= k < p ensures Prio(prio, t) <= Prio(prio, ready[k]) { assert !ByPrio(prio)(t, ready[k]); }
  }

  lemma EnterAdds(ready: seq<int>, prio: map<int, int>, t: int)
    requires Once(ready) && t !in ready
    ensures Adds(ready, Enter(ready, prio, t), t)
  {
    hide Prio, Runs.InsertOrdered;
    var p, l := EnterAt(ready, prio, t);
    forall x | x in ready || x == t ensures x in l {
      if x == t { assert l[p] == t; } else {
        var i :| 0 <= i < |ready| && ready[i] == x;
        assert l[if i < p then i else i + 1] == x;
      }
    }
  }

  /** Entering keeps the order: behind every thread of the same priority. */
  lemma EnterOrdered(ready: seq<int>, prio: map<int, int>, stamp: map<int, int>, clock: int, t: int)
    requires Ordered(ready, prio, stamp, clock) && t !in ready
    ensures Ordered(Enter(ready, prio, t), prio, stamp[t := clock], clock + 1)
  {
    hide Prio, Runs.InsertOrdered;
    var p, l := EnterAt(ready, prio, t);
    var stamp' := stamp[t := clock];
    forall i | 0 <= i < |ready| ensures Stamp(stamp', ready[i]) == Stamp(stamp, ready[i]) {}
    forall i | p <= i < |ready| ensures Prio(prio, ready[i]) < Prio(prio, t) {
      if i > p { assert Ahead(prio, stamp, ready[p], ready[i]); }
    }
    forall i, j | 0 <= i < j < |l| ensures Ahead(prio, stamp', l[i], l[j]) {
      if i != p && j != p {
        assert Ahead(prio, stamp, ready[if i < p then i else i - 1], ready[if j < p then j else j - 1]);
      }
    }
  }

  lemma RestOrdered(ready: seq<int>, prio: map<int, int>, stamp: map<int, int>, clock: int)
    requires Ordered(ready, prio, stamp, clock)
    ensures Ordered(Rest(ready), prio, stamp, clock)
    ensures forall x :: x in ready ==> Prio(prio, x) <= Prio(prio, ready[0])
  {
    forall i | 0 < i < |ready| ensures Prio(prio, ready[i]) <= Prio(prio, ready[0]) {
      assert Ahead(prio, stamp, ready[0], ready[i]);
    }
  }

  /** Only the priorities of ready threads matter. */
  lemma SameOrdered(ready: seq<int>, prio: map<int, int>, prio': map<int, int>, stamp: map<int, int>, clock: int)
    requires Ordered(ready, prio, stamp, clock) && forall x :: x in ready ==> Prio(prio', x) == Prio(prio, x)
    ensures Ordered(ready, prio', stamp, clock)
  {
    forall i, j | 0 <= i < j < |ready| ensures Ahead(prio', stamp, ready[i], ready[j]) {
      assert Ahead(prio, stamp, ready[i], ready[j]);
    }
  }

  /**
   * Raising one ready thread leaves the list sorted by priority if and only
   * if no thread ahead of it is below its new priority.
   */
  lemma RaisedReady(ready: seq<int>, prio: map<int, int>, k: int, p: int)
    requires 0 <= k < |ready| && Once(ready) && ready[k] in prio && prio[ready[k]] <= p
    requires forall i, j :: 0 <= i < j < |ready| ==> Prio(prio, ready[i]) >= Prio(prio, ready[j])
    ensures (forall i, j :: 0 <= i < j < |ready| ==>
      Prio(prio[ready[k] := p], ready[i]) >= Prio(prio[ready[k] := p], ready[j]))
       <==> (forall i :: 0 <= i < k ==> Prio(prio, ready[i]) >= p)
  {
    var prio' := prio[ready[k] := p];
    assert forall i :: 0 <= i < |ready| ==> Prio(prio', ready[i]) == if i == k then p else Prio(prio, ready[i]);
  }

  /** A donation to the second of two ready threads puts the list out of order. */
  lemma RaisedReadyBreaks()
    ensures var ready, prio := [1, 2], map[1 := 31, 2 := 20];
            Prio(prio, ready[0]) >= Prio(prio, ready[1]) &&
              Prio(prio[2 := 50], ready[0]) < Prio(prio[2 := 50], ready[1])
  {}

  // ----- sema_up's choice -----

  /** list_sort by compare_priorities: what the stable sort leaves. */
  function SortWaiters(w: seq<int>, prio: map<int, int>): (r: seq<int>)
    ensures |r| == |w|
  {
    if w == [] then [] else Enter(SortWaiters(w[..|w| - 1], prio), prio, w[|w| - 1])
  }

  lemma {:induction false} SortWaitersIs(w: seq<int>, prio: map<int, int>)
    requires Once(w)
    ensures var r := SortWaiters(w, prio);
            && Once(r) && (forall x :: x in r <==> x in w)
            && forall i, j :: 0 <= i < j < |r| ==> Prio(prio, r[i]) >= Prio(prio, r[j])
  {
    hide Prio, Enter;
    if w != [] {
      var v, t := w[..|w| - 1], w[|w| - 1];
      assert w == v + [t];
      assert t !in v;
      SortWaitersIs(v, prio);
      var s := SortWaiters(v, prio);
      EnterAdds(s, prio, t);
      EnterSorted(s, prio, t);
    }
  }

  lemma EnterSorted(s: seq<int>, prio: map<int, int>, t: int)
    requires forall i, j :: 0 <= i < j < |s| ==> Prio(prio, s[i]) >= Prio(prio, s[j])
    ensures var r := Enter(s, prio, t); forall i, j :: 0 <= i < j < |r| ==> Prio(prio, r[i]) >= Prio(prio, r[j])
  {
    hide Prio, Runs.InsertOrdered;
    var p, r := EnterAt(s, prio, t);
  }

  function IndexOf(w: seq<int>, x: int): nat { if w == [] || w[0] == x then 0 else 1 + IndexOf(w[1..], x) }

  /** Higher priority first, and among equals the one that comes first in w. */
  predicate Precedes(w: seq<int>, prio: map<int, int>, x: int, y: int) {
    Prio(prio, x) > Prio(prio, y) || (Prio(prio, x) == Prio(prio, y) && IndexOf(w, x) < IndexOf(w, y))
  }

  /** r is a sorted, stable permutation of w, which is what list_sort leaves. */
  ghost predicate StableSort(w: seq<int>, prio: map<int, int>, r: seq<int>) {
    && Once(r) && (forall x :: x in r <==> x in w)
    && forall i, j :: 0 <= i < j < |r| ==> Precedes(w, prio, r[i], r[j])
  }

  lemma {:induction false} IndexBounds(w: seq<int>, x: int)
    ensures IndexOf(w, x) <= |w| && (x in w <==> IndexOf(w, x) < |w|)
  {
    if w != [] && w[0] != x {
      assert w == [w[0]] + w[1..];
      IndexBounds(w[1..], x);
    }
  }

  lemma {:induction false} IndexKept(v: seq<int>, t: int, x: int)
    requires x in v
    ensures IndexOf(v + [t], x) == IndexOf(v, x)
  {
    if v[0] != x {
      assert v == [v[0]] + v[1..];
      assert (v + [t])[1..] == v[1..] + [t];
      IndexKept(v[1..], t, x);
    }
  }

  lemma {:induction false} IndexLast(v: seq<int>, t: int)
    requires t !in v
    ensures IndexOf(v + [t], t) == |v|
  {
    if v != [] {
      assert (v + [t])[1..] == v[1..] + [t];
      IndexLast(v[1..], t);
    }
  }

  lemma {:induction false} SortWaitersStable(w: seq<int>, prio: map<int, int>)
    requires Once(w)
    ensures StableSort(w, prio, SortWaiters(w, prio))
  {
    hide Prio, Enter, IndexOf;
    SortWaitersIs(w, prio);
    if w != [] {
      var v, t := w[..|w| - 1], w[|w| - 1];
      assert w == v + [t];
      assert t !in v;
      SortWaitersStable(v, prio);
      EnterStable(v, prio, SortWaiters(v, prio), t);
    }
  }

  lemma EnterStable(v: seq<int>, prio: map<int, int>, s: seq<int>, t: int)
    requires StableSort(v, prio, s) && t !in v
    ensures var r := Enter(s, prio, t); forall i, j :: 0 <= i < j < |r| ==> Precedes(v + [t], prio, r[i], r[j])
  {
    hide Prio, Enter, IndexOf, Once;
    var p, r := EnterAt(s, prio, t);
    IndexLast(v, t);
    forall k | 0 <= k < |s| ensures IndexOf(v + [t], s[k]) == IndexOf(v, s[k]) < |v| {
      assert s[k] in s;
      IndexKept(v, t, s[k]);
      IndexBounds(v, s[k]);
    }
    forall k | p <= k < |s| ensures Prio(prio, s[k]) < Prio(prio, t) {
      if k > p { assert Precedes(v, prio, s[p], s[k]); }
    }
    forall i, j | 0 <= i < j < |r| ensures Precedes(v + [t], prio, r[i], r[j]) {
      if i != p && j != p { assert Precedes(v, prio, s[if i < p then i else i - 1], s[if j < p then j else j - 1]); }
    }
  }

  /** There is only one stable sort of the waiters, so list_sort's result is SortWaiters. */
  lemma {:induction false} StableSortUnique(w: seq<int>, prio: map<int, int>, r: seq<int>, u: seq<int>)
    requires Once(r) && Once(u) && (forall x :: x in r <==> x in u)
    requires forall i, j :: 0 <= i < j < |r| ==> Precedes(w, prio, r[i], r[j])
    requires forall i, j :: 0 <= i < j < |u| ==> Precedes(w, prio, u[i], u[j])
    ensures r == u
  {
    hide Prio, IndexOf;
    BothEmpty(r, u);
    if |r| > 0 {
      SameFirst(w, prio, r, u);
      RestOnce(r);
      RestOnce(u);
      StableSortUnique(w, prio, Rest(r), Rest(u));
    }
  }

  lemma BothEmpty(r: seq<int>, u: seq<int>)
    requires forall x :: x in r <==> x in u
    ensures |r| == 0 <==> |u| == 0
  {
    if |r| > 0 { Common(r, u); }
    if |u| > 0 { Common(u, r); }
  }

  lemma Common(r: seq<int>, u: seq<int>)
    requires |r| > 0 && forall x :: x in r ==> x in u
    ensures |u| > 0
  {
    var x := r[0];
    assert x in r;
  }

  lemma Asymmetric(w: seq<int>, prio: map<int, int>, x: int, y: int)
    ensures !(Precedes(w, prio, x, y) && Precedes(w, prio, y, x))
  {
    hide Prio, IndexOf;
  }

  lemma SameFirst(w: seq<int>, prio: map<int, int>, r: seq<int>, u: seq<int>)
    requires r != [] && u != [] && (forall x :: x in r <==> x in u)
    requires forall i, j :: 0 <= i < j < |r| ==> Precedes(w, prio, r[i], r[j])
    requires forall i, j :: 0 <= i < j < |u| ==> Precedes(w, prio, u[i], u[j])
    ensures r[0] == u[0]
  {
    hide Precedes;
    assert r[0] in r && u[0] in u;
    var k :| 0 <= k < |u| && u[k] == r[0];
    var m :| 0 <= m < |r| && r[m] == u[0];
    Asymmetric(w, prio, r[0], u[0]);
  }
}

/** Counting semaphore operations: no up is lost and no wake-up either. */
module Semaphores {
  import opened Scheduling
  import opened Seqs

  /** The initial value, and the ups and completed downs so far. */
  datatype Count = Count(init: int, ups: int, downs: int)

  /** While threads wait, value is at most the number of woken threads that have not retried. */
  ghost predicate SemaOk(value: int, waiters: seq<int>, woken: set<int>, c: Count) {
    0 <= value == c.init + c.ups - c.downs && (waiters != [] ==> value <= |woken|)
  }

  ghost predicate CountsOk(value: map<int, int>, waiters: map<int, seq<int>>, woken: map<int, set<int>>,
                           count: map<int, Count>) {
    && value.Keys == waiters.Keys == woken.Keys == count.Keys
    && forall s :: s in value ==> SemaOk(value[s], waiters[s], woken[s], count[s])
  }

  /** A woken thread is in sema_down but no longer on the waiters' list. */
  ghost predicate WokenOk(waiters: map<int, seq<int>>, woken: map<int, set<int>>, want: map<int, int>) {
    && waiters.Keys == woken.Keys
    && forall s, t :: s in woken ==> (t in woken[s] <==> Wants(want, t, s) && t !in waiters[s])
  }

  /** A thread is in at most one sema_down, and if in one, in this one. */
  predicate MayWant(want: map<int, int>, c: int, s: int) { c in want ==> want[c] == s }

  lemma BlockCounts(value: map<int, int>, waiters: map<int, seq<int>>, woken: map<int, set<int>>,
                    count: map<int, Count>, s: int, l: seq<int>, c: int)
    requires CountsOk(value, waiters, woken, count) && s in value && value[s] == 0
    ensures CountsOk(value, waiters[s := l], woken[s := woken[s] - {c}], count)
  {}

  lemma BlockWoken(waiters: map<int, seq<int>>, woken: map<int, set<int>>, want: map<int, int>, s: int, l: seq<int>,
                   c: int)
    requires WokenOk(waiters, woken, want) && s in waiters && MayWant(want, c, s) && Adds(waiters[s], l, c)
    ensures WokenOk(waiters[s := l], woken[s := woken[s] - {c}], want[c := s])
  {
    hide Once;
    var waiters', woken', want' := waiters[s := l], woken[s := woken[s] - {c}], want[c := s];
    forall r, t | r in woken' ensures t in woken'[r] <==> Wants(want', t, r) && t !in waiters'[r] {
      assert t in woken[r] <==> Wants(want, t, r) && t !in waiters[r];
    }
  }

  lemma DownCounts(value: map<int, int>, waiters: map<int, seq<int>>, woken: map<int, set<int>>, count: map<int, Count>,
                   s: int, c: int)
    requires CountsOk(value, waiters, woken, count) && s in value && 0 < value[s]
    ensures CountsOk(value[s := value[s] - 1], waiters, woken[s := woken[s] - {c}],
      count[s := count[s].(downs := count[s].downs + 1)])
  {
    if c in woken[s] { assert |woken[s] - {c}| == |woken[s]| - 1; } else { assert woken[s] - {c} == woken[s]; }
  }

  lemma DownWoken(waiters: map<int, seq<int>>, woken: map<int, set<int>>, want: map<int, int>, s: int, c: int)
    requires WokenOk(waiters, woken, want) && s in waiters && MayWant(want, c, s)
    ensures WokenOk(waiters, woken[s := woken[s] - {c}], want - {c})
  {
    var woken', want' := woken[s := woken[s] - {c}], want - {c};
    forall r, t | r in woken' ensures t in woken'[r] <==> Wants(want', t, r) && t !in waiters[r] {
      assert t in woken[r] <==> Wants(want, t, r) && t !in waiters[r];
    }
  }

  /** sema_try_down takes a unit without waiting for it. */
  lemma TryCounts(value: map<int, int>, waiters: map<int, seq<int>>, woken: map<int, set<int>>,
                  count: map<int, Count>, s: int)
    requires CountsOk(value, waiters, woken, count) && s in value && 0 < value[s]
    ensures CountsOk(value[s := value[s] - 1], waiters, woken, count[s := count[s].(downs := count[s].downs + 1)])
  {}

  lemma InitCounts(value: map<int, int>, waiters: map<int, seq<int>>, woken: map<int, set<int>>, count: map<int, Count>,
                   s: int, v: int)
    requires CountsOk(value, waiters, woken, count) && s !in value && 0 <= v
    ensures CountsOk(value[s := v], waiters[s := []], woken[s := {}], count[s := Count(v, 0, 0)])
  {}

  lemma InitWoken(waiters: map<int, seq<int>>, woken: map<int, set<int>>, want: map<int, int>, s: int)
    requires WokenOk(waiters, woken, want) && s !in waiters && forall t :: t in want ==> want[t] in waiters
    ensures WokenOk(waiters[s := []], woken[s := {}], want)
  {
    forall r, t | r in woken[s := {}] ensures t in woken[s := {}][r] <==>
      Wants(want, t, r) && t !in waiters[s := []][r] {
      if r != s { assert t in woken[r] <==> Wants(want, t, r) && t !in waiters[r]; }
    }
  }

  /** An up with waiters wakes one of them, who was not among the woken. */
  lemma UpCounts(value: map<int, int>, waiters: map<int, seq<int>>, woken: map<int, set<int>>, want: map<int, int>,
                 count: map<int, Count>, s: int, w: seq<int>, t: int)
    requires CountsOk(value, waiters, woken, count) && WokenOk(waiters, woken, want) && s in value && t in waiters[s]
    ensures CountsOk(value[s := value[s] + 1], waiters[s := w], woken[s := woken[s] + {t}],
      count[s := count[s].(ups := count[s].ups + 1)])
  {
    assert t !in woken[s];
  }

  lemma UpNoneCounts(value: map<int, int>, waiters: map<int, seq<int>>, woken: map<int, set<int>>,
                     count: map<int, Count>, s: int)
    requires CountsOk(value, waiters, woken, count) && s in value && waiters[s] == []
    ensures CountsOk(value[s := value[s] + 1], waiters, woken, count[s := count[s].(ups := count[s].ups + 1)])
  {}

  lemma UpWoken(waiters: map<int, seq<int>>, woken: map<int, set<int>>, want: map<int, int>, s: int, w: seq<int>,
                t: int)
    requires WokenOk(waiters, woken, want) && s in waiters && Wants(want, t, s) && Adds(w, waiters[s], t)
    ensures WokenOk(waiters[s := w], woken[s := woken[s] + {t}], want)
  {
    hide Once;
    var waiters', woken' := waiters[s := w], woken[s := woken[s] + {t}];
    forall r, x | r in woken' ensures x in woken'[r] <==> Wants(want, x, r) && x !in waiters'[r] {
      assert x in woken[r] <==> Wants(want, x, r) && x !in waiters[r];
    }
  }
}
