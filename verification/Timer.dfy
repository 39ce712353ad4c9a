/**
 * The alarm clock of pintos/src/devices/timer.c: timer_sleep records a wake-up
 * tick in an ordered list and the timer interrupt releases the threads whose
 * tick has come.
 */
module Timer {
  import Division
  import Runs

  const INT64_MAX: int := 0x7fff_ffff_ffff_ffff

  /** One entry of sleep_list: the sleeping call and its tick_to_wake. */
  datatype Sleeper = Sleeper(call: nat, wake: int)

  /** A call timer_sleep(n) made when the tick counter was `at`. */
  datatype Call = Call(at: int, n: int)

  predicate CompareTicks(a: Sleeper, b: Sleeper) { a.wake < b.wake }

  /** The tick at which a call is woken: at + n, unless that overflows int64_t. */
  function Due(c: Call): int {
    if c.at + c.n <= INT64_MAX then c.at + c.n else c.at + 1
  }

  predicate Asleep(list: seq<Sleeper>, c: int) {
    exists i :: 0 <= i < |list| && list[i].call == c
  }

  /** Calls are made no later than tick `last`, for a positive number of ticks. */
  ghost predicate CallsOk(calls: seq<Call>, last: int) {
    forall c :: 0 <= c < |calls| ==> 0 <= calls[c].at <= last && 0 < calls[c].n <= INT64_MAX
  }

  /** The list holds distinct calls, none overdue, in order of wake-up tick. */
  ghost predicate ListOk(ticks: int, list: seq<Sleeper>, calls: seq<Call>) {
    && (forall i :: 0 <= i < |list| ==> list[i].call < |calls|)
    && (forall i, j :: 0 <= i < j < |list| ==> list[i].call != list[j].call)
    && (forall i :: 0 <= i < |list| ==> list[i].wake == Division.ToI64(calls[list[i].call].at + calls[list[i].call].n))
    && (forall i :: 0 <= i < |list| ==> ticks <= Due(calls[list[i].call]))
    && Runs.SortedRange(CompareTicks, list, 0, |list|)
  }

  /** wakes[c] lists the ticks at which call c was woken: none, or once, when due. */
  ghost predicate OnTime(ticks: int, list: seq<Sleeper>, calls: seq<Call>, wakes: seq<seq<int>>) {
    && |wakes| == |calls|
    && (forall c :: 0 <= c < |calls| ==> wakes[c] == if Asleep(list, c) then [] else [Due(calls[c])])
    && (forall c :: 0 <= c < |calls| && !Asleep(list, c) ==> Due(calls[c]) <= ticks)
  }

  ghost predicate Keeps(ticks: int, last: int, list: seq<Sleeper>, calls: seq<Call>, wakes: seq<seq<int>>) {
    0 <= last <= ticks <= INT64_MAX && CallsOk(calls, last) && ListOk(ticks, list, calls) &&
      OnTime(ticks, list, calls, wakes)
  }

  /** A wake-up tick that has come is due now, wrapped or not. */
  lemma WakeMeansDue(c: Call, ticks: int)
    requires 0 <= c.at < ticks <= INT64_MAX && 0 < c.n <= INT64_MAX && ticks <= Due(c)
    ensures Division.ToI64(c.at + c.n) <= ticks <==> Due(c) == ticks
  {}

  /** Exactly the calls that are due have been woken, each once and at its due tick. */
  ghost predicate Settled(ticks: int, calls: seq<Call>, wakes: seq<seq<int>>) {
    && |wakes| == |calls|
    && forall c :: 0 <= c < |calls| ==> wakes[c] == if Due(calls[c]) <= ticks then [Due(calls[c])] else []
  }

  lemma Initially(list: seq<Sleeper>, calls: seq<Call>, wakes: seq<seq<int>>)
    requires |list| == |calls| == |wakes| == 0
    ensures Keeps(0, 0, list, calls, wakes) && Settled(0, calls, wakes)
  {
    hide Division.ToI64, Due, CompareTicks;
    assert CallsOk(calls, 0) && OnTime(0, list, calls, wakes);
  }

  // ----- timer_sleep -----

  function Inserted(list: seq<Sleeper>, s: Sleeper, p: int): seq<Sleeper>
    requires 0 <= p <= |list|
  {
    list[..p] + [s] + list[p..]
  }

  lemma InsertedAt(list: seq<Sleeper>, s: Sleeper, p: int)
    requires 0 <= p <= |list|
    ensures |Inserted(list, s, p)| == |list| + 1
    ensures forall i :: 0 <= i <= |list| ==> Inserted(list, s, p)[i] == if i < p then list[i] else if i == p then s
      else list[i - 1]
  {}

  lemma InsertedAsleep(list: seq<Sleeper>, s: Sleeper, p: int, c: int)
    requires 0 <= p <= |list|
    ensures Asleep(Inserted(list, s, p), c) <==> Asleep(list, c) || c == s.call
  {
    InsertedAt(list, s, p);
    var list' := Inserted(list, s, p);
    if c == s.call { assert list'[p].call == c; }
    if Asleep(list, c) {
      var i :| 0 <= i < |list| && list[i].call == c;
      assert list'[if i < p then i else i + 1].call == c;
    }
  }

  lemma SleepListOk(ticks: int, list: seq<Sleeper>, calls: seq<Call>, c: Call)
    requires ListOk(ticks, list, calls) && ticks <= Due(c)
    ensures ListOk(ticks, Runs.InsertOrdered(CompareTicks, list, Sleeper(|calls|, Division.ToI64(c.at + c.n))),
      calls + [c])
  {
    hide Runs.InsertOrdered, Division.ToI64, Due, Inserted, Runs.SortedRange;
    var s := Sleeper(|calls|, Division.ToI64(c.at + c.n));
    var p := Runs.InsertedAt(CompareTicks, list, s);
    InsertedAt(list, s, p);
    assert Runs.InsertOrdered(CompareTicks, list, s) == Inserted(list, s, p) by { SameInsert(list, s, p); }
    Runs.InsertSorted(CompareTicks, list, s);
  }

  lemma SameInsert(list: seq<Sleeper>, s: Sleeper, p: int)
    requires 0 <= p <= |list| && Runs.InsertOrdered(CompareTicks, list, s) == list[..p] + [s] + list[p..]
    ensures Runs.InsertOrdered(CompareTicks, list, s) == Inserted(list, s, p)
  {}

  lemma SleepKeeps(ticks: int, list: seq<Sleeper>, calls: seq<Call>, wakes: seq<seq<int>>, n: int)
    requires Keeps(ticks, ticks, list, calls, wakes) && Settled(ticks, calls, wakes) && 0 < n <= INT64_MAX
    ensures var s := Sleeper(|calls|, Division.ToI64(ticks + n));
            var list' := Runs.InsertOrdered(CompareTicks, list, s);
            && Keeps(ticks, ticks, list', calls + [Call(ticks, n)], wakes + [[]]) && Asleep(list', |calls|)
            && Settled(ticks, calls + [Call(ticks, n)], wakes + [[]])
  {
    hide Runs.InsertOrdered, Division.ToI64, ListOk, Asleep, Inserted;
    var s := Sleeper(|calls|, Division.ToI64(ticks + n));
    SleepListOk(ticks, list, calls, Call(ticks, n));
    var p := Runs.InsertedAt(CompareTicks, list, s);
    SameInsert(list, s, p);
    NotYetAsleep(ticks, list, calls);
    forall c ensures Asleep(Inserted(list, s, p), c) <==> Asleep(list, c) || c == s.call {
      InsertedAsleep(list, s, p, c);
    }
  }

  lemma NotYetAsleep(ticks: int, list: seq<Sleeper>, calls: seq<Call>)
    requires ListOk(ticks, list, calls)
    ensures !Asleep(list, |calls|)
  {}

  // ----- timer_interrupt -----

  lemma TickStart(ticks: int, list: seq<Sleeper>, calls: seq<Call>, wakes: seq<seq<int>>)
    requires Keeps(ticks, ticks, list, calls, wakes) && Settled(ticks, calls, wakes) && ticks < INT64_MAX
    ensures Keeps(ticks + 1, ticks, list, calls, wakes)
  {
    hide Division.ToI64, Due, Runs.SortedRange;
    forall i | 0 <= i < |list| ensures ticks + 1 <= Due(calls[list[i].call]) {
      assert Asleep(list, list[i].call);
      assert wakes[list[i].call] == [];
    }
  }

  lemma PopAsleep(ticks: int, list: seq<Sleeper>, calls: seq<Call>, c: int)
    requires list != [] && ListOk(ticks, list, calls)
    ensures Asleep(list[1..], c) <==> Asleep(list, c) && c != list[0].call
  {
    hide Division.ToI64, Due, Runs.SortedRange;
    if Asleep(list, c) && c != list[0].call {
      var i :| 0 <= i < |list| && list[i].call == c;
      assert list[1..][i - 1].call == c;
    }
  }

  lemma PopListOk(ticks: int, list: seq<Sleeper>, calls: seq<Call>)
    requires list != [] && ListOk(ticks, list, calls)
    ensures ListOk(ticks, list[1..], calls) && list[0].call < |calls| && ticks <= Due(calls[list[0].call]) &&
      Asleep(list, list[0].call)
    ensures list[0].wake == Division.ToI64(calls[list[0].call].at + calls[list[0].call].n)
  {
    hide Division.ToI64, Due;
  }

  lemma WakeKeeps(ticks: int, list: seq<Sleeper>, calls: seq<Call>, wakes: seq<seq<int>>)
    requires 0 < ticks && Keeps(ticks, ticks - 1, list, calls, wakes) && list != [] && list[0].wake <= ticks
    ensures list[0].call < |wakes| && wakes[list[0].call] == []
    ensures Keeps(ticks, ticks - 1, list[1..], calls, wakes[list[0].call := wakes[list[0].call] + [ticks]])
  {
    hide Division.ToI64, Due, ListOk, Asleep;
    PopListOk(ticks, list, calls);
    WakeMeansDue(calls[list[0].call], ticks);
    forall c ensures Asleep(list[1..], c) <==> Asleep(list, c) && c != list[0].call {
      PopAsleep(ticks, list, calls, c);
    }
  }

  lemma RestDue(ticks: int, list: seq<Sleeper>, calls: seq<Call>)
    requires 0 < ticks <= INT64_MAX && CallsOk(calls, ticks - 1) && ListOk(ticks, list, calls) &&
      (list != [] ==> ticks < list[0].wake)
    ensures forall i :: 0 <= i < |list| ==> ticks < list[i].wake && ticks < Due(calls[list[i].call])
  {
    hide Division.ToI64, Due;
    forall i | 0 <= i < |list| ensures ticks < list[i].wake && ticks < Due(calls[list[i].call]) {
      assert !CompareTicks(list[i], list[0]);
      WakeMeansDue(calls[list[i].call], ticks);
    }
  }

  lemma RestKeeps(ticks: int, list: seq<Sleeper>, calls: seq<Call>, wakes: seq<seq<int>>)
    requires 0 < ticks && Keeps(ticks, ticks - 1, list, calls, wakes) && (list != [] ==> ticks < list[0].wake)
    ensures Keeps(ticks, ticks, list, calls, wakes) && Settled(ticks, calls, wakes)
    ensures forall i :: 0 <= i < |list| ==> ticks < list[i].wake
  {
    hide Division.ToI64, Due, Runs.SortedRange;
    RestDue(ticks, list, calls);
    forall c | 0 <= c < |calls| && Asleep(list, c) ensures ticks < Due(calls[c]) {}
  }

  lemma TickWakes(ticks: int, calls: seq<Call>, wakes: seq<seq<int>>, wakes': seq<seq<int>>)
    requires Settled(ticks, calls, wakes) && Settled(ticks + 1, calls, wakes')
    ensures forall c :: 0 <= c < |calls| ==> wakes'[c] == if Due(calls[c]) == ticks + 1 then [ticks + 1] else wakes[c]
  {}

  lemma ListSorted(ticks: int, list: seq<Sleeper>, calls: seq<Call>)
    requires ListOk(ticks, list, calls)
    ensures Runs.SortedRange(CompareTicks, list, 0, |list|)
  {}

  /**
   * timer_sleep's promise, and where it ends: for every n > 0, call c of a
   * settled history is woken at exactly its T + n, once, if and only if T + n
   * fits in int64_t; otherwise it is woken once at T + 1.
   */
  lemma WokenExactly(ticks: int, calls: seq<Call>, wakes: seq<seq<int>>, c: int)
    requires Settled(ticks, calls, wakes) && 0 <= c < |calls| && calls[c].at + 1 <= ticks <= INT64_MAX && 0 < calls[c].n
    ensures (wakes[c] == if calls[c].at + calls[c].n <= ticks then [calls[c].at + calls[c].n] else [])
            <==> calls[c].at + calls[c].n <= INT64_MAX
    ensures calls[c].at + calls[c].n > INT64_MAX ==> wakes[c] == [calls[c].at + 1]
  {}

  class Timer {
    var ticks: int
    var sleepList: seq<Sleeper>
    /** Every call so far; a sleeping thread is named by its call, since it cannot make another. */
    var calls: seq<Call>
    ghost var wakes: seq<seq<int>>

    /** Between steps every call is woken exactly once when it is due, and sleeping until then. */
    ghost predicate Valid() reads this {
      Keeps(ticks, ticks, sleepList, calls, wakes) && Settled(ticks, calls, wakes)
    }

    constructor ()
      ensures Valid() && ticks == 0 && calls == []
    {
      hide Keeps, Settled;
      ticks, sleepList, calls, wakes := 0, [], [], [];
      new;
      Initially(sleepList, calls, wakes);
    }

    /** The caller enters the list and blocks; n <= 0 returns at once. */
    method TimerSleep(n: int)
      requires Valid() && n <= INT64_MAX
      modifies this
      ensures Valid() && ticks == old(ticks)
      ensures n <= 0 ==> calls == old(calls) && sleepList == old(sleepList)
      ensures 0 < n ==> calls == old(calls) + [Call(ticks, n)] && Asleep(sleepList, |old(calls)|)
    {
      hide Keeps, Settled, Asleep, Due, Division.ToI64, Runs.InsertOrdered;
      if n <= 0 { return; }
      SleepKeeps(ticks, sleepList, calls, wakes, n);
      sleepList := Runs.InsertOrdered(CompareTicks, sleepList, Sleeper(|calls|, Division.ToI64(ticks + n)));
      calls, wakes := calls + [Call(ticks, n)], wakes + [[]];
    }

    /** The timer interrupt: afterwards every sleeper is strictly in the future, in order. */
    method TimerInterrupt()
      requires Valid() && ticks < INT64_MAX
      modifies this
      ensures Valid() && ticks == old(ticks) + 1 && calls == old(calls) && |wakes| == |calls| == old(|wakes|)
      ensures Runs.SortedRange(CompareTicks, sleepList, 0, |sleepList|)
      ensures forall i :: 0 <= i < |sleepList| ==> ticks < sleepList[i].wake
      ensures forall c :: 0 <= c < |calls| ==> wakes[c] == if Due(calls[c]) == ticks then [ticks] else old(wakes)[c]
    {
      hide CallsOk, ListOk, OnTime, Due, Runs.SortedRange;
      TickStart(ticks, sleepList, calls, wakes);
      ticks := ticks + 1;
      while sleepList != [] && sleepList[0].wake <= ticks
        invariant ticks == old(ticks) + 1 && calls == old(calls)
        invariant Keeps(ticks, ticks - 1, sleepList, calls, wakes)
        decreases |sleepList|
      {
        WakeKeeps(ticks, sleepList, calls, wakes);
        wakes := wakes[sleepList[0].call := wakes[sleepList[0].call] + [ticks]];
        sleepList := sleepList[1..];
      }
      RestKeeps(ticks, sleepList, calls, wakes);
      ListSorted(ticks, sleepList, calls);
      TickWakes(ticks - 1, calls, old(wakes), wakes);
    }
  }

  /** A sleep of INT64_MAX ticks that begins at tick 1 is over at tick 2. */
  method OverflowWakesEarly() returns (ticks: int, ghost woken: seq<int>)
    ensures ticks == 2 && woken == [2]
  {
    hide Keeps;
    var t := new Timer();
    t.TimerInterrupt();
    t.TimerSleep(INT64_MAX);
    t.TimerInterrupt();
    ticks, woken := t.ticks, t.wakes[0];
  }
}
