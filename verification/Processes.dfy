/**
 * Parents and children (pintos/src/userprog/process.c, and the exec, exit and
 * page-freeing parts of pintos/src/threads/thread.c), on values: where each
 * thread stands, and what must hold between any two steps.
 */
module Processes {
  import opened Seqs

  /** Where a thread is: c is the child whose page it is about to use. */
  datatype Pc =
    | Loading
    | Failing
    | User
    | ExecPush(c: int)
    | ExecDown(c: int)
    | ExecCheck(c: int)
    | WaitDown(c: int)
    | WaitRead(c: int)
    | WaitRemove(c: int, result: int)
    | WaitUp(c: int, result: int)
    | ExitKids
    | ExitUp(c: int)
    | ExitNotify
    | ExitWait

  const TID_ERROR := -1

  /**
   * A thread's page.  `id` numbers threads by birth and never changes; `tid` is
   * what exec returns; `owner` is the page of the thread that created it; load,
   * wait and exit are the values of its three semaphores.
   */
  datatype Thread = Thread(id: int, tid: int, owner: int, pc: Pc, kids: seq<int>, waited: bool, status: int,
    load: int, wait: int, exit: int)

  /** The child a thread is about to use is on its child_list. */
  predicate UsesListed(pc: Pc, c: int) {
    pc == ExecDown(c) || pc == ExecCheck(c) || pc == WaitDown(c) || pc == WaitRead(c) || (pc.WaitRemove? && pc.c == c)
  }

  /** The child a thread is about to use is not on its child_list: not yet, or no longer. */
  predicate UsesUnlisted(pc: Pc, c: int) {
    pc == ExecPush(c) || (pc.WaitUp? && pc.c == c) || pc == ExitUp(c)
  }

  /** t has child c on its list or is about to use its page. */
  predicate Refers(t: Thread, c: int) { c in t.kids || UsesUnlisted(t.pc, c) }

  predicate Exiting(pc: Pc) { pc.ExitKids? || pc.ExitUp? || pc.ExitNotify? || pc.ExitWait? }

  predicate Childless(pc: Pc) { pc.Loading? || pc.Failing? || pc.ExitNotify? || pc.ExitWait? }

  ghost predicate Local(t: Thread) {
    && Once(t.kids)
    && (forall c :: UsesListed(t.pc, c) ==> c in t.kids)
    && (forall c :: UsesUnlisted(t.pc, c) ==> c !in t.kids)
    && (Childless(t.pc) ==> t.kids == [])
    && 0 <= t.wait && 0 <= t.exit && (0 < t.wait ==> t.pc == ExitWait)
    && (t.pc == Loading ==> t.load == 0)
  }

  /** What holds of a child k that thread t on page p refers to as c. */
  ghost predicate Bond(p: int, t: Thread, c: int, k: Thread) {
    && c != p && k.owner == p && k.exit == 0
    && (t.pc == ExecCheck(c) ==> k.pc != Loading)
    && ((t.pc == WaitDown(c) || t.pc == WaitRead(c)) ==> k.waited)
    && (t.pc == WaitRead(c) ==> k.pc == ExitWait)
    && (((t.pc.WaitRemove? || t.pc.WaitUp?) && t.pc.c == c) ==> k.waited && k.pc == ExitWait && k.status == t.pc.result)
  }

  /** Every child referred to is there, and bound to the thread that refers to it. */
  ghost predicate Linked(threads: map<int, Thread>) {
    && (forall p :: p in threads ==> Local(threads[p]))
    && (forall p, c :: p in threads && Refers(threads[p], c) ==> c in threads && Bond(p, threads[p], c, threads[c]))
  }

  /** A change of a child that its parent cannot notice. */
  predicate Unnoticed(k: Thread, k': Thread) {
    && k'.owner == k.owner && k'.exit == k.exit && (k.waited ==> k'.waited) && (k'.pc == Loading ==> k.pc == Loading)
    && (k.pc == ExitWait ==> k'.pc == ExitWait && k'.status == k.status)
  }

  /** Thread p becomes t: it refers to no one new, and its parent does not notice. */
  lemma Relink(threads: map<int, Thread>, p: int, t: Thread)
    requires Linked(threads) && p in threads && Local(t) && Unnoticed(threads[p], t)
    requires forall c :: Refers(t, c) ==> Refers(threads[p], c) && c in threads && Bond(p, t, c, threads[c])
    ensures Linked(threads[p := t])
  {
    hide Local, Refers;
    var threads' := threads[p := t];
    forall q, c | q in threads' && Refers(threads'[q], c)
      ensures c in threads' && Bond(q, threads'[q], c, threads'[c]) {
      assert Refers(threads[q], c);
      assert Bond(q, threads[q], c, threads[c]);
    }
  }

  /** A thread no one refers to may change freely. */
  lemma RelinkAlone(threads: map<int, Thread>, k: int, t: Thread)
    requires Linked(threads) && k in threads && Local(t) && t.pc == threads[k].pc && t.kids == threads[k].kids
    requires forall p :: p in threads ==> !Refers(threads[p], k)
    ensures Linked(threads[k := t])
  {
    hide Local;
    var threads' := threads[k := t];
    forall q, c | q in threads' && Refers(threads'[q], c)
      ensures c in threads' && Bond(q, threads'[q], c, threads'[c]) {
      assert Refers(threads[q], c);
      assert Bond(q, threads[q], c, threads[c]);
    }
  }

  /** Only its owner refers to a thread, and no one after its exit_mutex was upped. */
  lemma ReferredBy(threads: map<int, Thread>, p: int, c: int)
    requires Linked(threads) && p in threads && Refers(threads[p], c)
    ensures c in threads && c != p && threads[c].owner == p && threads[c].exit == 0
    ensures forall q :: q in threads && Refers(threads[q], c) ==> q == p
  {
    hide Local, Refers;
    forall q | q in threads && Refers(threads[q], c) ensures q == p { assert Bond(q, threads[q], c, threads[c]); }
    assert Bond(p, threads[p], c, threads[c]);
  }

  // ----- history -----

  /** One successful process_wait: the child waited for and the status returned. */
  datatype Reaped = Reaped(id: int, result: int)

  ghost predicate Known(t: Thread, nextId: int, ups: map<int, int>, stored: map<int, int>, freed: set<int>) {
    && 0 <= t.id < nextId && t.id in ups && t.exit == ups[t.id] && t.id !in freed
    && (Exiting(t.pc) <==> t.id in stored) && (Exiting(t.pc) ==> stored[t.id] == t.status)
    && (t.tid == t.id || t.tid == TID_ERROR)
  }

  /** ups counts the sema_up of each thread's exit_mutex; stored is the status it exits with. */
  ghost predicate Counted(threads: map<int, Thread>, nextId: int, ups: map<int, int>, stored: map<int, int>,
                          freed: set<int>) {
    && (forall p :: p in threads ==> Known(threads[p], nextId, ups, stored, freed))
    && (forall p, q :: p in threads && q in threads && p != q ==> threads[p].id != threads[q].id)
    && (forall i :: i in ups <==> 0 <= i < nextId)
    && (forall i :: i in ups ==> 0 <= ups[i] <= 1)
    && (forall i :: i in freed ==> i in ups && ups[i] == 1)
    && (forall i :: i in stored ==> i in ups)
  }

  /** Every result returned is the status the child stored, and no child is reaped twice. */
  ghost predicate LogOk(log: seq<Reaped>, ups: map<int, int>, stored: map<int, int>) {
    && (forall k :: 0 <= k < |log| ==>
         log[k].id in stored && log[k].result == stored[log[k].id] && log[k].id in ups && ups[log[k].id] == 1)
    && (forall j, k :: 0 <= j < k < |log| ==> log[j].id != log[k].id)
  }

  ghost predicate Waiting(threads: map<int, Thread>, i: int, parentId: int, c: int) {
    && c in threads && threads[c].id == i && threads[c].owner in threads
    && Refers(threads[threads[c].owner], c) && threads[threads[c].owner].id == parentId
  }

  /** A child was released once, or its load failed, or its living parent still refers to it. */
  ghost predicate Accounted(threads: map<int, Thread>, parent: map<int, int>, page: map<int, int>, ups: map<int, int>,
                            failed: set<int>) {
    parent.Keys <= page.Keys && forall i :: i in parent ==>
      i in ups && (ups[i] == 1 || i in failed || Waiting(threads, i, parent[i], page[i]))
  }

  /** The history of a run, apart from the threads themselves. */
  datatype History = History(nextId: int, parent: map<int, int>, page: map<int, int>, ups: map<int, int>,
                             failed: set<int>,
                             stored: map<int, int>, freed: set<int>, log: seq<Reaped>)

  /** Only children made by exec whose load did not fail are referred to or released. */
  ghost predicate Eligible(threads: map<int, Thread>, h: History) {
    && (forall p, c :: p in threads && Refers(threads[p], c) && c in threads ==>
         threads[c].id in h.parent && threads[c].id !in h.failed)
    && (forall i :: i in h.ups && h.ups[i] == 1 ==> i in h.parent && i !in h.failed)
    && (forall i :: i in h.failed ==> i in h.ups)
  }

  ghost predicate Inv(threads: map<int, Thread>, h: History) {
    && Linked(threads) && Counted(threads, h.nextId, h.ups, h.stored, h.freed)
    && LogOk(h.log, h.ups, h.stored) && Accounted(threads, h.parent, h.page, h.ups, h.failed)
    && Eligible(threads, h)
  }

  // ----- steps -----

  /** A thread made outside exec: on no list, and at work at once. */
  function KernelThread(id: int, owner: int): Thread { Thread(id, id, owner, User, [], false, 0, 0, 0, 0) }

  function NewThread(id: int, owner: int): Thread { Thread(id, id, owner, Loading, [], false, 0, 0, 0, 0) }

  function Loaded(t: Thread, success: bool): Thread {
    if success then t.(load := t.load + 1, pc := User) else t.(tid := TID_ERROR, load := t.load + 1, pc := Failing)
  }

  /** The first child leaves the list and is about to be released; without children the loop ends. */
  function Unlisted(t: Thread): Thread {
    if t.kids == [] then t.(pc := ExitNotify) else t.(kids := t.kids[1..], pc := ExitUp(t.kids[0]))
  }

  datatype World = World(threads: map<int, Thread>, h: History)

  /** One first thread, which no one waits for. */
  function FirstWorld(first: int): World {
    World(map[first := Thread(0, 0, first, User, [], false, 0, 0, 0, 0)],
      History(1, map[], map[], map[0 := 0], {}, map[], {}, []))
  }

  /** A step of the thread on page p. */
  datatype Event =
    | Spawn(p: int, c: int)
    | Create(p: int, c: int)
    | Push(p: int)
    | LoadDown(p: int)
    | ExecReturn(p: int)
    | LoadDone(p: int, success: bool)
    | Exit(p: int, status: int)
    | ExitNext(p: int)
    | ExitRelease(p: int)
    | ExitSignal(p: int)
    | Free(p: int)
    | WaitStart(p: int, c: int)
    | WaitDone(p: int)
    | WaitFetch(p: int)
    | WaitUnlist(p: int)
    | WaitReturn(p: int)

  /** When a step can be taken: the pages it uses are there, and a down finds a positive value. */
  predicate Enabled(w: World, e: Event) {
    && e.p in w.threads
    && var t := w.threads[e.p];
       match e
       case Spawn(_, c) => t.pc == User && c !in w.threads
       case Create(_, c) => t.pc == User && c !in w.threads
       case Push(_) => t.pc.ExecPush?
       case LoadDown(_) => t.pc.ExecDown? && t.pc.c in w.threads && 0 < w.threads[t.pc.c].load
       case ExecReturn(_) => t.pc.ExecCheck? && t.pc.c in w.threads
       case LoadDone(_, _) => t.pc == Loading
       case Exit(_, status) => t.pc == User || (t.pc == Failing && status == -1)
       case ExitNext(_) => t.pc == ExitKids
       case ExitRelease(_) => t.pc.ExitUp? && t.pc.c in w.threads
       case ExitSignal(_) => t.pc == ExitNotify
       case Free(_) => t.pc == ExitWait && 0 < t.exit
       case WaitStart(_, c) => t.pc == User && c in t.kids && c in w.threads && !w.threads[c].waited
       case WaitDone(_) => t.pc.WaitDown? && t.pc.c in w.threads && 0 < w.threads[t.pc.c].wait
       case WaitFetch(_) => t.pc.WaitRead? && t.pc.c in w.threads
       case WaitUnlist(_) => t.pc.WaitRemove?
       case WaitReturn(_) => t.pc.WaitUp? && t.pc.c in w.threads
  }

  /** Both a thread and its child change. */
  function Two(threads: map<int, Thread>, p: int, t: Thread, c: int, k: Thread): map<int, Thread> {
    threads[c := k][p := t]
  }

  function Upped(h: History, id: int): History { h.(ups := h.ups[id := 1]) }

  /** The world after a step. */
  function After(w: World, e: Event): World
    requires Enabled(w, e)
  {
    var (threads, h, p) := (w.threads, w.h, e.p);
    var t := threads[p];
    match e
    case Spawn(_, c) =>
      World(threads[c := KernelThread(h.nextId, p)], h.(nextId := h.nextId + 1, ups := h.ups[h.nextId := 0]))
    case Create(_, c) =>
      World(threads[c := NewThread(h.nextId, p)][p := t.(pc := ExecPush(c))],
            h.(nextId := h.nextId + 1, parent := h.parent[h.nextId := t.id], page := h.page[h.nextId := c],
              ups := h.ups[h.nextId := 0]))
    case Push(_) => World(threads[p := t.(kids := t.kids + [t.pc.c], pc := ExecDown(t.pc.c))], h)
    case LoadDown(_) => World(Two(threads, p, t.(pc := ExecCheck(t.pc.c)), t.pc.c,
      threads[t.pc.c].(load := threads[t.pc.c].load - 1)), h)
    case ExecReturn(_) =>
      if threads[t.pc.c].tid == TID_ERROR
      then World(threads[p := t.(kids := Without(t.kids, t.pc.c), pc := User)],
        h.(failed := h.failed + {threads[t.pc.c].id}))
      else World(threads[p := t.(pc := User)], h)
    case LoadDone(_, success) => World(threads[p := Loaded(t, success)], h)
    case Exit(_, status) => World(threads[p := t.(status := status, pc := ExitKids)],
      h.(stored := h.stored[t.id := status]))
    case ExitNext(_) => World(threads[p := Unlisted(t)], h)
    case ExitRelease(_) =>
      World(threads[p := t.(pc := ExitKids)][t.pc.c := threads[t.pc.c].(exit := threads[t.pc.c].exit + 1)],
        Upped(h, threads[t.pc.c].id))
    case ExitSignal(_) => World(threads[p := t.(wait := t.wait + 1, pc := ExitWait)], h)
    case Free(_) => World(threads - {p}, h.(freed := h.freed + {t.id}))
    case WaitStart(_, c) => World(Two(threads, p, t.(pc := WaitDown(c)), c, threads[c].(waited := true)), h)
    case WaitDone(_) => World(Two(threads, p, t.(pc := WaitRead(t.pc.c)), t.pc.c,
      threads[t.pc.c].(wait := threads[t.pc.c].wait - 1)), h)
    case WaitFetch(_) => World(threads[p := t.(pc := WaitRemove(t.pc.c, threads[t.pc.c].status))], h)
    case WaitUnlist(_) => World(threads[p := t.(kids := Without(t.kids, t.pc.c), pc := WaitUp(t.pc.c, t.pc.result))], h)
    case WaitReturn(_) =>
      World(threads[p := t.(pc := User)][t.pc.c := threads[t.pc.c].(exit := threads[t.pc.c].exit + 1)],
            Upped(h, threads[t.pc.c].id).(log := h.log + [Reaped(threads[t.pc.c].id, t.pc.result)]))
  }

  // ----- what the invariant means -----

  /** A page is freed only after its exit_mutex was upped, and then no thread refers to it. */
  lemma FreedUnreferenced(threads: map<int, Thread>, h: History, p: int, c: int)
    requires Inv(threads, h) && p in threads && c in threads && 0 < threads[c].exit
    ensures !Refers(threads[p], c)
  {
    hide Local, Refers, Counted, LogOk, Accounted, Eligible;
    if Refers(threads[p], c) { ReferredBy(threads, p, c); }
  }

  /** Once a parent has passed its loop over child_list, or is gone, each child it loaded was upped exactly once. */
  lemma ChildrenReleased(threads: map<int, Thread>, h: History, i: int)
    requires Inv(threads, h) && i in h.parent && i !in h.failed
    requires forall p :: p in threads && threads[p].id == h.parent[i] ==> Childless(threads[p].pc)
    ensures i in h.ups && h.ups[i] == 1
  {
    hide Counted, LogOk, Once, Eligible;
    assert !Waiting(threads, i, h.parent[i], h.page[i]);
  }

  /** A wait returns the status its child stored, and no later wait for the child succeeds. */
  lemma ReapedOnce(threads: map<int, Thread>, h: History, j: int, k: int)
    requires Inv(threads, h) && 0 <= j < |h.log| && 0 <= k < |h.log| && h.log[j].id == h.log[k].id
    ensures j == k && h.log[k].id in h.stored && h.log[k].result == h.stored[h.log[k].id]
  {
    hide Linked, Counted, Accounted, Eligible;
  }

  /** A thread that no exec made, or whose load failed, waits for its exit_mutex for ever: its page is never freed. */
  lemma NeverFreed(threads: map<int, Thread>, h: History, i: int)
    requires Inv(threads, h) && (i !in h.parent || i in h.failed)
    ensures i !in h.freed && forall p :: p in threads && threads[p].id == i ==> threads[p].exit == 0
  {
    hide Linked, LogOk, Accounted;
    forall p | p in threads && threads[p].id == i
      ensures threads[p].exit == 0
    {
      assert Known(threads[p], h.nextId, h.ups, h.stored, h.freed);
    }
  }

  /**
   * Which waiting threads get away: one whose parent is past its loop over
   * child_list or gone can be freed if and only if exec made it and its load
   * did not fail.
   */
  lemma FreedExactly(threads: map<int, Thread>, h: History, p: int)
    requires Inv(threads, h) && p in threads && threads[p].pc == ExitWait
    requires forall q :: q in threads && threads[p].id in h.parent && threads[q].id == h.parent[threads[p].id] ==>
      Childless(threads[q].pc)
    ensures Enabled(World(threads, h), Free(p)) <==> threads[p].id in h.parent && threads[p].id !in h.failed
  {
    hide Inv;
    var i := threads[p].id;
    ExitIsUps(threads, h, p);
    if i in h.parent && i !in h.failed { ChildrenReleased(threads, h, i); } else { NeverFreed(threads, h, i); }
  }

  lemma ExitIsUps(threads: map<int, Thread>, h: History, p: int)
    requires Inv(threads, h) && p in threads
    ensures threads[p].id in h.ups && threads[p].exit == h.ups[threads[p].id]
  {
    hide Linked, LogOk, Accounted, Eligible;
    assert Known(threads[p], h.nextId, h.ups, h.stored, h.freed);
  }

  // ----- what steps keep -----

  lemma KeepEligible(threads: map<int, Thread>, h: History, p: int, t: Thread)
    requires Eligible(threads, h) && p in threads && t.id == threads[p].id && forall c :: Refers(t, c) ==>
      Refers(threads[p], c)
    ensures Eligible(threads[p := t], h)
  {
    hide Refers;
    var threads' := threads[p := t];
    forall q, c | q in threads' && Refers(threads'[q], c) && c in threads'
      ensures threads'[c].id in h.parent && threads'[c].id !in h.failed {
      assert Refers(threads[q], c);
    }
  }

  lemma KeepCounted(threads: map<int, Thread>, h: History, p: int, t: Thread, stored: map<int, int>)
    requires Counted(threads, h.nextId, h.ups, h.stored, h.freed) && p in threads && t.id == threads[p].id &&
      Known(t, h.nextId, h.ups, stored, h.freed)
    requires forall i :: i != t.id ==> (i in stored <==> i in h.stored) && (i in stored ==> stored[i] == h.stored[i])
    ensures Counted(threads[p := t], h.nextId, h.ups, stored, h.freed)
  {}

  lemma KeepAccounted(threads: map<int, Thread>, h: History, p: int, t: Thread, ups: map<int, int>, failed: set<int>)
    requires Accounted(threads, h.parent, h.page, h.ups, h.failed) && p in threads && t.id == threads[p].id &&
      t.owner == threads[p].owner
    requires forall c :: c in threads && Refers(threads[p], c) ==>
      Refers(t, c) || threads[c].id in failed || (threads[c].id in ups && ups[threads[c].id] == 1)
    requires h.failed <= failed && forall i :: i in h.ups ==> i in ups && (h.ups[i] == 1 ==> ups[i] == 1)
    ensures Accounted(threads[p := t], h.parent, h.page, ups, failed)
  {
    hide Refers;
    var threads' := threads[p := t];
    forall i | i in h.parent ensures ups[i] == 1 || i in failed || Waiting(threads', i, h.parent[i], h.page[i]) {
      assert h.ups[i] == 1 || i in h.failed || Waiting(threads, i, h.parent[i], h.page[i]);
    }
  }

  /** A step of one thread that keeps its references, unnoticed by its parent. */
  lemma SimpleStep(threads: map<int, Thread>, h: History, p: int, t: Thread)
    requires Inv(threads, h) && p in threads && Local(t) && Unnoticed(threads[p], t) && t.id == threads[p].id
    requires (Exiting(t.pc) <==> Exiting(threads[p].pc)) && (Exiting(t.pc) ==> t.status == threads[p].status)
    requires t.tid == threads[p].tid || t.tid == TID_ERROR
    requires forall c :: Refers(t, c) <==> Refers(threads[p], c)
    requires forall c :: Refers(t, c) && c in threads && Bond(p, threads[p], c, threads[c]) ==>
      Bond(p, t, c, threads[c])
    ensures Inv(threads[p := t], h)
  {
    hide Local, Refers, LogOk, Eligible;
    assert Known(threads[p], h.nextId, h.ups, h.stored, h.freed);
    LinkedAt(threads, p);
    KeepEligible(threads, h, p, t);
    Relink(threads, p, t);
    KeepCounted(threads, h, p, t, h.stored);
    KeepAccounted(threads, h, p, t, h.ups, h.failed);
  }

  lemma LinkedAt(threads: map<int, Thread>, p: int)
    requires Linked(threads) && p in threads
    ensures Local(threads[p]) && forall c :: Refers(threads[p], c) ==>
      c in threads && Bond(p, threads[p], c, threads[c])
  {
    hide Local, Refers, Bond;
  }
}
