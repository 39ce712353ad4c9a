/**
 * Whole runs of exec, wait and exit: any number of threads take their steps in
 * any order, and the promises hold at every point of every run.
 */
module ProcessRuns {
  import opened Processes
  import opened Seqs
  import P = Process

  ghost predicate Safe(w: World) { Inv(w.threads, w.h) }

  /** The child a thread is about to use is always still there. */
  lemma NeverDangling(w: World, p: int, c: int)
    requires Safe(w) && p in w.threads && (UsesListed(w.threads[p].pc, c) || UsesUnlisted(w.threads[p].pc, c))
    ensures c in w.threads && w.threads[c].exit == 0 && w.threads[c].owner == p
  {
    hide Bond, LogOk, Accounted, Eligible, Counted, Once, UsesUnlisted, UsesListed;
    assert Local(w.threads[p]);
    ReferredBy(w.threads, p, c);
  }

  /** Every step keeps the invariant. */
  lemma StepSafe(w: World, e: Event)
    requires Safe(w) && Enabled(w, e)
    ensures Safe(After(w, e))
  {
    hide Inv, Without, Loaded, Unlisted, NewThread;
    var p := e.p;
    match e
    case Spawn(_, c) => P.SpawnStep(w.threads, w.h, p, c);
    case Create(_, c) => P.CreateStep(w.threads, w.h, p, c);
    case Push(_) => P.PushStep(w.threads, w.h, p);
    case LoadDown(_) => P.LoadDownStep(w.threads, w.h, p, w.threads[p].pc.c);
    case ExecReturn(_) =>
      if w.threads[w.threads[p].pc.c].tid == TID_ERROR {
        P.FailedStep(w.threads, w.h, p, w.threads[p].pc.c);
      } else {
        P.LoadedStep(w.threads, w.h, p);
      }
    case LoadDone(_, success) => P.LoadDoneStep(w.threads, w.h, p, success);
    case Exit(_, status) => P.ExitStep(w.threads, w.h, p, status);
    case ExitNext(_) => P.ExitNextStep(w.threads, w.h, p);
    case ExitRelease(_) => P.ExitUpStep(w.threads, w.h, p, w.threads[p].pc.c);
    case ExitSignal(_) => P.ExitSignalStep(w.threads, w.h, p);
    case Free(_) => P.FreeStep(w.threads, w.h, p);
    case WaitStart(_, c) => P.WaitStartStep(w.threads, w.h, p, c);
    case WaitDone(_) => P.WaitDoneStep(w.threads, w.h, p, w.threads[p].pc.c);
    case WaitFetch(_) => P.WaitFetchStep(w.threads, w.h, p);
    case WaitUnlist(_) => P.WaitUnlistStep(w.threads, w.h, p);
    case WaitReturn(_) => ReturnSafe(w, e);
  }

  lemma ReturnSafe(w: World, e: Event)
    requires Safe(w) && Enabled(w, e) && e.WaitReturn?
    ensures Safe(After(w, e))
  {
    hide Inv, LogOk;
    var t := w.threads[e.p];
    P.ReapStep(w.threads, w.h, e.p, t.pc.c, t.pc.result);
    P.ReleaseStep(w.threads, w.h, e.p, t.pc.c, User, w.h.log + [Reaped(w.threads[t.pc.c].id, t.pc.result)]);
  }

  // ----- runs -----

  /** ws are the worlds of a run from a first thread on, es its steps. */
  ghost predicate IsRun(ws: seq<World>, es: seq<Event>, first: int) {
    && |ws| == |es| + 1 && ws[0] == FirstWorld(first)
    && forall i :: 0 <= i < |es| ==> Enabled(ws[i], es[i]) && ws[i + 1] == After(ws[i], es[i])
  }

  /** The invariant holds at every point of every run. */
  lemma {:induction false} RunSafe(ws: seq<World>, es: seq<Event>, first: int, i: int)
    requires IsRun(ws, es, first) && 0 <= i < |ws|
    ensures Safe(ws[i])
  {
    hide Inv, Enabled, After;
    if i == 0 {
      P.Initially(first);
    } else {
      RunSafe(ws, es, first, i - 1);
      StepSafe(ws[i - 1], es[i - 1]);
    }
  }

  /** A page in use by a parent is there at every point of every run. */
  lemma RunNeverDangles(ws: seq<World>, es: seq<Event>, first: int, i: int, p: int, c: int)
    requires IsRun(ws, es, first) && 0 <= i < |ws| && p in ws[i].threads && Refers(ws[i].threads[p], c)
    ensures c in ws[i].threads && ws[i].threads[c].exit == 0
  {
    hide IsRun, Refers, Bond, LogOk, Accounted, Eligible, Counted, Local;
    RunSafe(ws, es, first, i);
    ReferredBy(ws[i].threads, p, c);
  }

  /** Step k of the run ups the exit_mutex of the thread born as number id. */
  predicate Ups(ws: seq<World>, es: seq<Event>, k: int, id: int)
    requires 0 <= k < |es| && |ws| == |es| + 1
  {
    && (es[k].ExitRelease? || es[k].WaitReturn?) && Enabled(ws[k], es[k])
    && ws[k].threads[ws[k].threads[es[k].p].pc.c].id == id
  }

  /** How many of the first k steps do. */
  function CountUps(ws: seq<World>, es: seq<Event>, k: int, id: int): nat
    requires 0 <= k <= |es| && |ws| == |es| + 1
  {
    if k == 0 then 0 else CountUps(ws, es, k - 1, id) + if Ups(ws, es, k - 1, id) then 1 else 0
  }

  lemma {:induction false} UpsCounted(ws: seq<World>, es: seq<Event>, first: int, k: int, id: int)
    requires IsRun(ws, es, first) && 0 <= k <= |es|
    ensures CountUps(ws, es, k, id) == if id in ws[k].h.ups then ws[k].h.ups[id] else 0
  {
    hide Inv, Without, Loaded, Unlisted, NewThread, IsRun;
    RunStart(ws, es, first);
    if k > 0 {
      UpsCounted(ws, es, first, k - 1, id);
      RunSafe(ws, es, first, k - 1);
      RunStep(ws, es, first, k - 1);
      UpsStep(ws[k - 1], es[k - 1], id);
    }
  }

  lemma RunStep(ws: seq<World>, es: seq<Event>, first: int, k: int)
    requires IsRun(ws, es, first) && 0 <= k < |es|
    ensures |ws| == |es| + 1 && Enabled(ws[k], es[k]) && ws[k + 1] == After(ws[k], es[k])
  {
    hide Enabled, After;
  }

  lemma RunStart(ws: seq<World>, es: seq<Event>, first: int)
    requires IsRun(ws, es, first)
    ensures |ws| == |es| + 1 && ws[0] == FirstWorld(first)
  {
    hide Enabled, After;
  }

  /** A step changes the count of at most the thread it releases, from 0 to 1. */
  lemma UpsStep(w: World, e: Event, id: int)
    requires Safe(w) && Enabled(w, e)
    ensures var was := if id in w.h.ups then w.h.ups[id] else 0;
            var now := if id in After(w, e).h.ups then After(w, e).h.ups[id] else 0;
            now == was + if (e.ExitRelease? || e.WaitReturn?) && w.threads[w.threads[e.p].pc.c].id == id then 1 else 0
  {
    hide Inv, Without, Loaded, Unlisted, NewThread;
    if e.Spawn? || e.Create? { P.CreateLog(w.threads, w.h, e.p); }
    if e.ExitRelease? || e.WaitReturn? { ReleasedOnce(w, e); }
  }

  lemma ReleasedOnce(w: World, e: Event)
    requires Safe(w) && Enabled(w, e) && (e.ExitRelease? || e.WaitReturn?)
    ensures var id := w.threads[w.threads[e.p].pc.c].id; id in w.h.ups && w.h.ups[id] == 0
  {
    hide Local, Bond, LogOk, Accounted, Eligible, UsesListed;
    var c := w.threads[e.p].pc.c;
    assert UsesUnlisted(w.threads[e.p].pc, c);
    ReferredBy(w.threads, e.p, c);
    P.KnownUps(w.threads, w.h, c);
  }

  /** In every run the exit_mutex of a thread is upped at most once. */
  lemma UppedAtMostOnce(ws: seq<World>, es: seq<Event>, first: int, k: int, id: int)
    requires IsRun(ws, es, first) && 0 <= k <= |es|
    ensures CountUps(ws, es, k, id) <= 1
  {
    hide IsRun, Linked, LogOk, Accounted, Eligible;
    RunStart(ws, es, first);
    UpsCounted(ws, es, first, k, id);
    RunSafe(ws, es, first, k);
  }

  /** And exactly once for each child that loaded, once its parent is past its loop over child_list or gone. */
  lemma UppedExactlyOnce(ws: seq<World>, es: seq<Event>, first: int, k: int, id: int)
    requires IsRun(ws, es, first) && 0 <= k <= |es| && id in ws[k].h.parent && id !in ws[k].h.failed
    requires forall p :: p in ws[k].threads && ws[k].threads[p].id == ws[k].h.parent[id] ==>
      Childless(ws[k].threads[p].pc)
    ensures CountUps(ws, es, k, id) == 1
  {
    hide IsRun, Inv;
    RunStart(ws, es, first);
    UpsCounted(ws, es, first, k, id);
    RunSafe(ws, es, first, k);
    ChildrenReleased(ws[k].threads, ws[k].h, id);
  }

  /** A stored status was stored by an exit of that thread earlier in the run. */
  lemma {:induction false} StoredByExit(ws: seq<World>, es: seq<Event>, first: int, k: int, id: int) returns (j: int)
    requires IsRun(ws, es, first) && 0 <= k <= |es| && id in ws[k].h.stored
    ensures 0 <= j < k && es[j].Exit? && es[j].p in ws[j].threads && ws[j].threads[es[j].p].id == id &&
      es[j].status == ws[k].h.stored[id]
  {
    hide Inv, Without, Loaded, Unlisted, NewThread, IsRun;
    RunStart(ws, es, first);
    RunStep(ws, es, first, k - 1);
    if es[k - 1].Exit? && ws[k - 1].threads[es[k - 1].p].id == id {
      j := k - 1;
    } else {
      j := StoredByExit(ws, es, first, k - 1, id);
    }
  }

  /** process_wait returns the status its child stored when it exited, earlier in the run. */
  lemma WaitReturnsStatus(ws: seq<World>, es: seq<Event>, first: int, k: int) returns (j: int)
    requires IsRun(ws, es, first) && 0 <= k < |es| && es[k].WaitReturn? && Enabled(ws[k], es[k])
    ensures var t := ws[k].threads[es[k].p];
            && 0 <= j < k && es[j].Exit? && es[j].status == t.pc.result
            && es[j].p in ws[j].threads && ws[j].threads[es[j].p].id == ws[k].threads[t.pc.c].id
  {
    hide IsRun, Inv, LogOk;
    RunStart(ws, es, first);
    var t := ws[k].threads[es[k].p];
    RunSafe(ws, es, first, k);
    P.ReapStep(ws[k].threads, ws[k].h, es[k].p, t.pc.c, t.pc.result);
    j := StoredByExit(ws, es, first, k, ws[k].threads[t.pc.c].id);
  }

  /** At most one wait per child succeeds in a run. */
  lemma WaitedAtMostOnce(ws: seq<World>, es: seq<Event>, first: int, j: int, k: int)
    requires IsRun(ws, es, first) && 0 <= j < |es| && 0 <= k < |es| && es[j].WaitReturn? && es[k].WaitReturn?
    requires Enabled(ws[j], es[j]) && Enabled(ws[k], es[k])
    requires ws[j].threads[ws[j].threads[es[j].p].pc.c].id == ws[k].threads[ws[k].threads[es[k].p].pc.c].id
    ensures j == k
  {
    hide IsRun, After, Inv;
    RunStart(ws, es, first);
    var id := ws[j].threads[ws[j].threads[es[j].p].pc.c].id;
    var (lo, hi) := if j < k then (j, k) else (k, j);
    if lo < hi {
      UppedAtMostOnce(ws, es, first, hi + 1, id);
      CountGrows(ws, es, lo + 1, hi, id);
    }
  }

  lemma {:induction false} CountGrows(ws: seq<World>, es: seq<Event>, a: int, b: int, id: int)
    requires |ws| == |es| + 1 && 0 <= a <= b <= |es|
    ensures CountUps(ws, es, a, id) <= CountUps(ws, es, b, id)
  {
    hide Ups;
    if a < b { CountGrows(ws, es, a, b - 1, id); }
  }

  // ----- threads that are never freed -----

  /** The thread born as number id was not made by exec, or its load failed. */
  predicate Lost(h: History, id: int) { 0 <= id < h.nextId && (id !in h.parent || id in h.failed) }

  lemma LostStep(w: World, e: Event, id: int)
    requires Safe(w) && Enabled(w, e) && Lost(w.h, id)
    ensures Lost(After(w, e).h, id)
  {
    hide Inv, Without, Loaded, Unlisted, NewThread;
  }

  /** A lost thread stays lost, and at no later point of the run has it been freed or can it be. */
  lemma {:induction false} LostForever(ws: seq<World>, es: seq<Event>, first: int, i: int, j: int, id: int)
    requires IsRun(ws, es, first) && 0 <= i <= j < |ws| && Lost(ws[i].h, id)
    ensures Lost(ws[j].h, id) && id !in ws[j].h.freed
    ensures forall p :: p in ws[j].threads && ws[j].threads[p].id == id ==> !Enabled(ws[j], Free(p))
    decreases j
  {
    hide Inv, IsRun, After;
    RunStart(ws, es, first);
    if i < j {
      LostForever(ws, es, first, i, j - 1, id);
      RunSafe(ws, es, first, j - 1);
      RunStep(ws, es, first, j - 1);
      LostStep(ws[j - 1], es[j - 1], id);
    }
    RunSafe(ws, es, first, j);
    NeverFreed(ws[j].threads, ws[j].h, id);
  }

  /** At every point of every run, a waiting thread whose parent is past its loop or
      gone can be freed if and only if it is not lost. */
  lemma RunFreedExactly(ws: seq<World>, es: seq<Event>, first: int, k: int, p: int)
    requires IsRun(ws, es, first) && 0 <= k < |ws| && p in ws[k].threads && ws[k].threads[p].pc == ExitWait
    requires var (w, id) := (ws[k], ws[k].threads[p].id);
             id in w.h.parent ==> forall q :: q in w.threads && w.threads[q].id == w.h.parent[id] ==>
               Childless(w.threads[q].pc)
    ensures Enabled(ws[k], Free(p)) <==> !Lost(ws[k].h, ws[k].threads[p].id)
  {
    hide IsRun, Linked, LogOk, Accounted, Eligible;
    RunSafe(ws, es, first, k);
    assert Known(ws[k].threads[p], ws[k].h.nextId, ws[k].h.ups, ws[k].h.stored, ws[k].h.freed);
    FreedExactly(ws[k].threads, ws[k].h, p);
  }

  // A run in which a load fails: thread 7 execs, its child on page 8 fails to load and is dropped.

  function Parent(pc: Pc, kids: seq<int>): Thread { Thread(0, 0, 7, pc, kids, false, 0, 0, 0, 0) }

  function Kid(tid: int, pc: Pc, status: int, load: int, wait: int): Thread {
    Thread(1, tid, 7, pc, [], false, status, load, wait, 0)
  }

  function Scene(parent: Thread, kid: Thread, failed: set<int>, stored: map<int, int>): World {
    World(map[7 := parent, 8 := kid], History(2, map[1 := 0], map[1 := 8], map[0 := 0, 1 := 0], failed, stored, {}, []))
  }

  function FailScene(k: int): World {
    match k
    case 0 => FirstWorld(7)
    case 1 => Scene(Parent(ExecPush(8), []), Kid(1, Loading, 0, 0, 0), {}, map[])
    case 2 => Scene(Parent(ExecDown(8), [8]), Kid(1, Loading, 0, 0, 0), {}, map[])
    case 3 => Scene(Parent(ExecDown(8), [8]), Kid(TID_ERROR, Failing, 0, 1, 0), {}, map[])
    case 4 => Scene(Parent(ExecCheck(8), [8]), Kid(TID_ERROR, Failing, 0, 0, 0), {}, map[])
    case 5 => Scene(Parent(User, []), Kid(TID_ERROR, Failing, 0, 0, 0), {1}, map[])
    case 6 => Scene(Parent(User, []), Kid(TID_ERROR, ExitKids, -1, 0, 0), {1}, map[1 := -1])
    case 7 => Scene(Parent(User, []), Kid(TID_ERROR, ExitNotify, -1, 0, 0), {1}, map[1 := -1])
    case _ => Scene(Parent(User, []), Kid(TID_ERROR, ExitWait, -1, 0, 1), {1}, map[1 := -1])
  }

  function FailEvent(k: int): Event {
    match k
    case 0 => Create(7, 8)
    case 1 => Push(7)
    case 2 => LoadDone(8, false)
    case 3 => LoadDown(7)
    case 4 => ExecReturn(7)
    case 5 => Exit(8, -1)
    case 6 => ExitNext(8)
    case _ => ExitSignal(8)
  }

  lemma FailStepEarly(k: int)
    requires 0 <= k < 3
    ensures Enabled(FailScene(k), FailEvent(k)) && FailScene(k + 1) == After(FailScene(k), FailEvent(k))
  {
    var a, b := After(FailScene(k), FailEvent(k)).threads, FailScene(k + 1).threads;
    assert [] + [8] == [8] && Without([8], 8) == [];
    assert a[7] == b[7] && a[8] == b[8] && a.Keys == {7, 8} == b.Keys;
  }

  lemma FailStepMiddle(k: int)
    requires 3 <= k < 5
    ensures Enabled(FailScene(k), FailEvent(k)) && FailScene(k + 1) == After(FailScene(k), FailEvent(k))
  {
    var a, b := After(FailScene(k), FailEvent(k)).threads, FailScene(k + 1).threads;
    assert [] + [8] == [8] && Without([8], 8) == [];
    assert a[7] == b[7] && a[8] == b[8] && a.Keys == {7, 8} == b.Keys;
  }

  lemma FailStepLate(k: int)
    requires 5 <= k < 8
    ensures Enabled(FailScene(k), FailEvent(k)) && FailScene(k + 1) == After(FailScene(k), FailEvent(k))
  {
    var a, b := After(FailScene(k), FailEvent(k)).threads, FailScene(k + 1).threads;
    assert [] + [8] == [8] && Without([8], 8) == [];
    assert a[7] == b[7] && a[8] == b[8] && a.Keys == {7, 8} == b.Keys;
  }

  /** Such a run exists, and its child waits in thread_exit without ever being freed. */
  lemma FailedLoad() returns (ws: seq<World>, es: seq<Event>)
    ensures IsRun(ws, es, 7) && |es| == 8 && Lost(ws[8].h, 1)
    ensures 8 in ws[8].threads && ws[8].threads[8].pc == ExitWait && ws[8].threads[8].id == 1 &&
      !Enabled(ws[8], Free(8))
  {
    ws, es := seq(9, k => FailScene(k)), seq(8, k => FailEvent(k));
    hide After, Enabled;
    forall k | 0 <= k < 8 ensures Enabled(ws[k], es[k]) && ws[k + 1] == After(ws[k], es[k]) {
      if k < 3 { FailStepEarly(k); } else if k < 5 { FailStepMiddle(k); } else { FailStepLate(k); }
    }
    LostForever(ws, es, 7, 8, 8, 1);
  }
}
