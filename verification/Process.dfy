/**
 * exec, wait and exit as steps that interleave freely: each method is one
 * semaphore operation or one access to shared fields by the thread on page p.
 * A down completes when the value is positive; Kernel says how threads block.
 */
module Process {
  import opened Options
  import opened Processes
  import opened Seqs

  lemma Initially(first: int)
    ensures Inv(FirstWorld(first).threads, FirstWorld(first).h)
  {
    var threads := FirstWorld(first).threads;
    assert forall p :: p in threads ==> p == first;
  }

  lemma CreateLinked(threads: map<int, Thread>, h: History, p: int, c: int)
    requires Inv(threads, h) && p in threads && threads[p].pc == User && c !in threads
    ensures Linked(threads[c := NewThread(h.nextId, p)][p := threads[p].(pc := ExecPush(c))])
  {
    hide Counted, LogOk, Accounted, Eligible;
    var mid := threads[c := NewThread(h.nextId, p)];
    var t := threads[p].(pc := ExecPush(c));
    LinkedAt(threads, p);
    assert Local(threads[p]);
    var threads' := mid[p := t];
    forall q, d | q in threads' && Refers(threads'[q], d)
      ensures d in threads' && Bond(q, threads'[q], d, threads'[d]) {
      if !(q == p && d == c) { assert Refers(threads[q], d); }
    }
  }

  lemma CreateStep(threads: map<int, Thread>, h: History, p: int, c: int)
    requires Inv(threads, h) && p in threads && threads[p].pc == User && c !in threads
    ensures Inv(threads[c := NewThread(h.nextId, p)][p := threads[p].(pc := ExecPush(c))],
              h.(nextId := h.nextId + 1, parent := h.parent[h.nextId := threads[p].id], page := h.page[h.nextId := c],
                ups := h.ups[h.nextId := 0]))
  {
    hide Linked, LogOk, Counted, Accounted, Eligible;
    CreateLog(threads, h, p);
    CreateLinked(threads, h, p, c);
    CreateCounted(threads, h, p, c);
    CreateAccounted(threads, h, p, c);
    CreateEligible(threads, h, p, c);
  }

  lemma CreateEligible(threads: map<int, Thread>, h: History, p: int, c: int)
    requires Linked(threads) && Eligible(threads, h) && p in threads && threads[p].pc == User && c !in threads &&
      h.nextId !in h.ups
    ensures Eligible(threads[c := NewThread(h.nextId, p)][p := threads[p].(pc := ExecPush(c))],
              h.(nextId := h.nextId + 1, parent := h.parent[h.nextId := threads[p].id], page := h.page[h.nextId := c],
                ups := h.ups[h.nextId := 0]))
  {
    hide Local, Bond;
    var threads' := threads[c := NewThread(h.nextId, p)][p := threads[p].(pc := ExecPush(c))];
    forall q, d | q in threads' && Refers(threads'[q], d) && d in threads'
      ensures (threads'[d].id in h.parent || threads'[d].id == h.nextId) && threads'[d].id !in h.failed {
      if !(q == p && d == c) { assert Refers(threads[q], d); }
    }
  }

  lemma SpawnStep(threads: map<int, Thread>, h: History, p: int, c: int)
    requires Inv(threads, h) && p in threads && c !in threads
    ensures Inv(threads[c := KernelThread(h.nextId, p)], h.(nextId := h.nextId + 1, ups := h.ups[h.nextId := 0]))
  {
    hide Linked, LogOk, Counted, Accounted, Eligible;
    CreateLog(threads, h, p);
    SpawnLinked(threads, h, p, c);
    SpawnCounted(threads, h, p, c);
    SpawnAccounted(threads, h, p, c);
    SpawnEligible(threads, h, p, c);
  }

  lemma SpawnLinked(threads: map<int, Thread>, h: History, p: int, c: int)
    requires Linked(threads) && c !in threads
    ensures Linked(threads[c := KernelThread(h.nextId, p)])
  {
    var threads' := threads[c := KernelThread(h.nextId, p)];
    forall q, d | q in threads' && Refers(threads'[q], d)
      ensures d in threads' && Bond(q, threads'[q], d, threads'[d]) {
      assert Refers(threads[q], d);
    }
  }

  lemma SpawnCounted(threads: map<int, Thread>, h: History, p: int, c: int)
    requires Counted(threads, h.nextId, h.ups, h.stored, h.freed) && c !in threads && 0 <= h.nextId
    ensures Counted(threads[c := KernelThread(h.nextId, p)], h.nextId + 1, h.ups[h.nextId := 0], h.stored, h.freed)
  {
    var threads' := threads[c := KernelThread(h.nextId, p)];
    forall q | q in threads' ensures Known(threads'[q], h.nextId + 1, h.ups[h.nextId := 0], h.stored, h.freed) {
      if q != c { assert Known(threads[q], h.nextId, h.ups, h.stored, h.freed); }
    }
  }

  lemma SpawnAccounted(threads: map<int, Thread>, h: History, p: int, c: int)
    requires Accounted(threads, h.parent, h.page, h.ups, h.failed) && c !in threads && h.nextId !in h.ups
    ensures Accounted(threads[c := KernelThread(h.nextId, p)], h.parent, h.page, h.ups[h.nextId := 0], h.failed)
  {
    hide Refers;
    var threads' := threads[c := KernelThread(h.nextId, p)];
    forall i | i in h.parent ensures h.ups[i] == 1 || i in h.failed || Waiting(threads', i, h.parent[i], h.page[i]) {
      assert h.ups[i] == 1 || i in h.failed || Waiting(threads, i, h.parent[i], h.page[i]);
    }
  }

  lemma SpawnEligible(threads: map<int, Thread>, h: History, p: int, c: int)
    requires Linked(threads) && Eligible(threads, h) && c !in threads && h.nextId !in h.ups
    ensures Eligible(threads[c := KernelThread(h.nextId, p)], h.(nextId := h.nextId + 1, ups := h.ups[h.nextId := 0]))
  {
    hide Local, Bond;
    var threads' := threads[c := KernelThread(h.nextId, p)];
    forall q, d | q in threads' && Refers(threads'[q], d) && d in threads'
      ensures threads'[d].id in h.parent && threads'[d].id !in h.failed {
      assert Refers(threads[q], d);
    }
  }

  lemma CreateCounted(threads: map<int, Thread>, h: History, p: int, c: int)
    requires Counted(threads, h.nextId, h.ups, h.stored, h.freed) && p in threads && threads[p].pc == User &&
      c !in threads && 0 <= h.nextId
    ensures Counted(threads[c := NewThread(h.nextId, p)][p := threads[p].(pc := ExecPush(c))], h.nextId + 1,
      h.ups[h.nextId := 0], h.stored, h.freed)
  {
    var threads' := threads[c := NewThread(h.nextId, p)][p := threads[p].(pc := ExecPush(c))];
    forall q | q in threads' ensures Known(threads'[q], h.nextId + 1, h.ups[h.nextId := 0], h.stored, h.freed) {
      if q != c { assert Known(threads[q], h.nextId, h.ups, h.stored, h.freed); }
    }
  }

  lemma CreateAccounted(threads: map<int, Thread>, h: History, p: int, c: int)
    requires Accounted(threads, h.parent, h.page, h.ups, h.failed) && p in threads && threads[p].pc == User &&
      c !in threads && h.nextId !in h.ups
    ensures Accounted(threads[c := NewThread(h.nextId, p)][p := threads[p].(pc := ExecPush(c))],
              h.parent[h.nextId := threads[p].id], h.page[h.nextId := c], h.ups[h.nextId := 0], h.failed)
  {
    var threads' := threads[c := NewThread(h.nextId, p)][p := threads[p].(pc := ExecPush(c))];
    assert Waiting(threads', h.nextId, threads[p].id, c);
    forall i | i in h.parent ensures h.ups[i] == 1 || i in h.failed || Waiting(threads', i, h.parent[i], h.page[i]) {
      assert h.ups[i] == 1 || i in h.failed || Waiting(threads, i, h.parent[i], h.page[i]);
    }
  }

  lemma CreateLog(threads: map<int, Thread>, h: History, p: int)
    requires Inv(threads, h) && p in threads
    ensures 0 <= h.nextId && h.nextId !in h.ups && LogOk(h.log, h.ups[h.nextId := 0], h.stored)
  {
    hide Linked, Accounted, Eligible;
    assert h.nextId !in h.ups;
    assert Known(threads[p], h.nextId, h.ups, h.stored, h.freed);
  }

  lemma PushStep(threads: map<int, Thread>, h: History, p: int)
    requires Inv(threads, h) && p in threads && threads[p].pc.ExecPush?
    ensures Inv(threads[p := threads[p].(kids := threads[p].kids + [threads[p].pc.c],
      pc := ExecDown(threads[p].pc.c))], h)
  {
    hide Counted, LogOk, Accounted, Eligible;
    LinkedAt(threads, p);
    assert UsesUnlisted(threads[p].pc, threads[p].pc.c);
    SimpleStep(threads, h, p, threads[p].(kids := threads[p].kids + [threads[p].pc.c],
      pc := ExecDown(threads[p].pc.c)));
  }

  lemma LoadDownStep(threads: map<int, Thread>, h: History, p: int, c: int)
    requires Inv(threads, h) && p in threads && threads[p].pc == ExecDown(c) && c in threads && 0 < threads[c].load
    ensures c != p && threads[c].pc != Loading &&
      Inv(threads[c := threads[c].(load := threads[c].load - 1)][p := threads[p].(pc := ExecCheck(c))], h)
  {
    hide Counted, LogOk, Accounted, Eligible;
    LinkedAt(threads, p);
    assert UsesListed(threads[p].pc, c);
    ReferredBy(threads, p, c);
    assert Local(threads[c]);
    var mid := threads[c := threads[c].(load := threads[c].load - 1)];
    KidStep(threads, h, c, threads[c].(load := threads[c].load - 1));
    LinkedAt(mid, p);
    SimpleStep(mid, h, p, threads[p].(pc := ExecCheck(c)));
  }

  /** A change of a thread's fields outside its pc and its list. */
  lemma KidStep(threads: map<int, Thread>, h: History, c: int, k: Thread)
    requires Inv(threads, h) && c in threads && Unnoticed(threads[c], k) && k.id == threads[c].id &&
      k.status == threads[c].status
    requires k.pc == threads[c].pc && k.kids == threads[c].kids && 0 <= k.wait <= threads[c].wait &&
      k.tid == threads[c].tid
    requires k.pc == Loading ==> k.load == threads[c].load
    ensures Inv(threads[c := k], h)
  {
    hide Counted, LogOk, Accounted, Eligible;
    LinkedAt(threads, c);
    SimpleStep(threads, h, c, k);
  }

  lemma FailedLinked(threads: map<int, Thread>, p: int, c: int)
    requires Linked(threads) && p in threads && threads[p].pc == ExecCheck(c)
    ensures var t := threads[p].(kids := Without(threads[p].kids, c), pc := User);
            && Linked(threads[p := t]) && Refers(threads[p], c) && forall d :: Refers(t, d) <==>
                 Refers(threads[p], d) && d != c
  {
    hide Without, Once;
    LinkedAt(threads, p);
    assert UsesListed(threads[p].pc, c);
    WithoutIs(threads[p].kids, c);
    Relink(threads, p, threads[p].(kids := Without(threads[p].kids, c), pc := User));
  }

  lemma FailedStep(threads: map<int, Thread>, h: History, p: int, c: int)
    requires Inv(threads, h) && p in threads && threads[p].pc == ExecCheck(c) && c in threads
    ensures Inv(threads[p := threads[p].(kids := Without(threads[p].kids, c), pc := User)],
      h.(failed := h.failed + {threads[c].id}))
  {
    hide Without, LogOk, Linked, Refers, Eligible, Accounted;
    FailedLinked(threads, p, c);
    var t := threads[p].(kids := Without(threads[p].kids, c), pc := User);
    assert Known(threads[p], h.nextId, h.ups, h.stored, h.freed);
    KeepCounted(threads, h, p, t, h.stored);
    KeepAccounted(threads, h, p, t, h.ups, h.failed + {threads[c].id});
    FailedEligible(threads, h, p, c, t);
  }

  lemma FailedEligible(threads: map<int, Thread>, h: History, p: int, c: int, t: Thread)
    requires Linked(threads) && Counted(threads, h.nextId, h.ups, h.stored, h.freed) && Eligible(threads, h) &&
      p in threads && c in threads
    requires Refers(threads[p], c) && t.id == threads[p].id && forall d :: Refers(t, d) <==>
      Refers(threads[p], d) && d != c
    ensures Eligible(threads[p := t], h.(failed := h.failed + {threads[c].id}))
  {
    hide Refers, Linked, Known;
    ReferredBy(threads, p, c);
    KnownUps(threads, h, c);
    var threads', id := threads[p := t], threads[c].id;
    forall q, d | q in threads' && Refers(threads'[q], d) && d in threads'
      ensures threads'[d].id in h.parent && threads'[d].id !in h.failed + {id} {
      assert Refers(threads[q], d);
      assert d != c;
    }
  }

  lemma KnownUps(threads: map<int, Thread>, h: History, c: int)
    requires Counted(threads, h.nextId, h.ups, h.stored, h.freed) && c in threads
    ensures threads[c].id in h.ups && h.ups[threads[c].id] == threads[c].exit
  {
    assert Known(threads[c], h.nextId, h.ups, h.stored, h.freed);
  }

  lemma LoadedStep(threads: map<int, Thread>, h: History, p: int)
    requires Inv(threads, h) && p in threads && threads[p].pc.ExecCheck?
    ensures Inv(threads[p := threads[p].(pc := User)], h)
  {
    hide Counted, LogOk, Accounted, Eligible;
    LinkedAt(threads, p);
    SimpleStep(threads, h, p, threads[p].(pc := User));
  }

  lemma LoadDoneStep(threads: map<int, Thread>, h: History, p: int, success: bool)
    requires Inv(threads, h) && p in threads && threads[p].pc == Loading
    ensures Inv(threads[p := Loaded(threads[p], success)], h)
  {
    hide Counted, LogOk, Accounted, Eligible;
    LinkedAt(threads, p);
    SimpleStep(threads, h, p, Loaded(threads[p], success));
  }

  lemma ExitStep(threads: map<int, Thread>, h: History, p: int, status: int)
    requires Inv(threads, h) && p in threads && (threads[p].pc == User || threads[p].pc == Failing)
    ensures Inv(threads[p := threads[p].(status := status, pc := ExitKids)],
      h.(stored := h.stored[threads[p].id := status]))
  {
    hide LogOk, Eligible;
    LinkedAt(threads, p);
    var t := threads[p].(status := status, pc := ExitKids);
    Relink(threads, p, t);
    assert Known(threads[p], h.nextId, h.ups, h.stored, h.freed);
    NotReaped(threads, h, p);
    KeepCounted(threads, h, p, t, h.stored[t.id := status]);
    KeepAccounted(threads, h, p, t, h.ups, h.failed);
    StoreLog(h, t.id, status);
    KeepEligible(threads, h, p, t);
    SameEligible(threads[p := t], h, h.(stored := h.stored[t.id := status]));
  }

  lemma SameEligible(threads: map<int, Thread>, h: History, h': History)
    requires Eligible(threads, h) && h'.parent == h.parent && h'.failed == h.failed && h'.ups == h.ups
    ensures Eligible(threads, h')
  {
    hide Refers;
  }

  /** A thread that is not exiting was not reaped: its exit_mutex is at 0. */
  lemma NotReaped(threads: map<int, Thread>, h: History, p: int)
    requires Inv(threads, h) && p in threads && !Exiting(threads[p].pc)
    ensures forall k :: 0 <= k < |h.log| ==> h.log[k].id != threads[p].id
  {
  }

  lemma StoreLog(h: History, id: int, status: int)
    requires LogOk(h.log, h.ups, h.stored) && forall k :: 0 <= k < |h.log| ==> h.log[k].id != id
    ensures LogOk(h.log, h.ups, h.stored[id := status])
  {}

  lemma UnlistedLocal(t: Thread)
    requires Local(t) && t.pc == ExitKids
    ensures Local(Unlisted(t)) && forall c :: Refers(Unlisted(t), c) <==> Refers(t, c)
  {
    assert t.kids != [] ==> t.kids == [t.kids[0]] + t.kids[1..];
  }

  lemma ExitNextStep(threads: map<int, Thread>, h: History, p: int)
    requires Inv(threads, h) && p in threads && threads[p].pc == ExitKids
    ensures Inv(threads[p := Unlisted(threads[p])], h)
  {
    hide Counted, LogOk, Accounted, Eligible, Refers, Local;
    LinkedAt(threads, p);
    UnlistedLocal(threads[p]);
    SimpleStep(threads, h, p, Unlisted(threads[p]));
  }

  lemma ExitSignalStep(threads: map<int, Thread>, h: History, p: int)
    requires Inv(threads, h) && p in threads && threads[p].pc == ExitNotify
    ensures Inv(threads[p := threads[p].(wait := threads[p].wait + 1, pc := ExitWait)], h)
  {
    hide Counted, LogOk, Accounted, Eligible;
    LinkedAt(threads, p);
    SimpleStep(threads, h, p, threads[p].(wait := threads[p].wait + 1, pc := ExitWait));
  }

  // ----- releasing and freeing a child -----

  lemma ReleaseStep(threads: map<int, Thread>, h: History, p: int, c: int, pc: Pc, log: seq<Reaped>)
    requires Inv(threads, h) && p in threads && UsesUnlisted(threads[p].pc, c) && !threads[p].pc.ExecPush?
    requires pc == if threads[p].pc.ExitUp? then ExitKids else User
    requires c in threads ==> LogOk(log, h.ups[threads[c].id := 1], h.stored)
    ensures c in threads && c != p && threads[c].id in h.ups && h.ups[threads[c].id] == 0
    ensures Inv(threads[p := threads[p].(pc := pc)][c := threads[c].(exit := threads[c].exit + 1)],
              h.(ups := h.ups[threads[c].id := h.ups[threads[c].id] + 1], log := log))
  {
    hide Linked, Counted, LogOk, Accounted, Eligible, Local, Bond, UsesListed;
    ReferredBy(threads, p, c);
    KnownAt(threads, h, c);
    ReleaseLinked(threads, p, c, pc);
    ReleaseCounted(threads, h, p, c, pc);
    ReleaseAccounted(threads, h, p, c, pc);
    ReleaseEligible(threads, h, p, c, pc, log);
  }

  lemma ReleaseEligible(threads: map<int, Thread>, h: History, p: int, c: int, pc: Pc, log: seq<Reaped>)
    requires Eligible(threads, h) && p in threads && c in threads && c != p && threads[c].id in h.ups &&
      UsesUnlisted(threads[p].pc, c)
    requires pc == ExitKids || pc == User
    ensures Eligible(threads[p := threads[p].(pc := pc)][c := threads[c].(exit := threads[c].exit + 1)],
              h.(ups := h.ups[threads[c].id := h.ups[threads[c].id] + 1], log := log))
  {
    hide UsesListed;
    assert Refers(threads[p], c);
    var t, k := threads[p].(pc := pc), threads[c].(exit := threads[c].exit + 1);
    KeepEligible(threads, h, p, t);
    KeepEligible(threads[p := t], h, c, k);
  }

  lemma KnownAt(threads: map<int, Thread>, h: History, p: int)
    requires Counted(threads, h.nextId, h.ups, h.stored, h.freed) && p in threads
    ensures Known(threads[p], h.nextId, h.ups, h.stored, h.freed) && h.ups[threads[p].id] <= 1
  {}

  lemma ReleaseLinked(threads: map<int, Thread>, p: int, c: int, pc: Pc)
    requires Linked(threads) && p in threads && UsesUnlisted(threads[p].pc, c) && (pc == ExitKids || pc == User) &&
      !threads[p].pc.ExitWait?
    ensures c in threads && Linked(threads[p := threads[p].(pc := pc)][c := threads[c].(exit := threads[c].exit + 1)])
  {
    hide Once;
    LinkedAt(threads, p);
    ReferredBy(threads, p, c);
    var t := threads[p].(pc := pc);
    var mid := threads[p := t];
    Relink(threads, p, t);
    assert Local(threads[c]);
    RelinkAlone(mid, c, threads[c].(exit := threads[c].exit + 1));
  }

  lemma ReleaseCounted(threads: map<int, Thread>, h: History, p: int, c: int, pc: Pc)
    requires Counted(threads, h.nextId, h.ups, h.stored, h.freed) && p in threads && c in threads && c != p &&
      threads[c].exit == 0
    requires Exiting(pc) <==> Exiting(threads[p].pc)
    ensures Counted(threads[p := threads[p].(pc := pc)][c := threads[c].(exit := threads[c].exit + 1)],
              h.nextId, h.ups[threads[c].id := h.ups[threads[c].id] + 1], h.stored, h.freed)
  {
    KnownAt(threads, h, p);
    KnownAt(threads, h, c);
    var t, k, id := threads[p].(pc := pc), threads[c].(exit := threads[c].exit + 1), threads[c].id;
    var threads', ups := threads[p := t][c := k], h.ups[id := h.ups[id] + 1];
    forall q | q in threads' ensures Known(threads'[q], h.nextId, ups, h.stored, h.freed) {
      assert Known(threads[q], h.nextId, h.ups, h.stored, h.freed);
    }
  }

  lemma ReleaseAccounted(threads: map<int, Thread>, h: History, p: int, c: int, pc: Pc)
    requires Accounted(threads, h.parent, h.page, h.ups, h.failed) && p in threads && c in threads && c != p &&
      threads[c].id in h.ups && h.ups[threads[c].id] == 0
    requires UsesUnlisted(threads[p].pc, c)
    ensures Accounted(threads[p := threads[p].(pc := pc)][c := threads[c].(exit := threads[c].exit + 1)],
              h.parent, h.page, h.ups[threads[c].id := h.ups[threads[c].id] + 1], h.failed)
  {
    hide Waiting, Accounted, Eligible, UsesListed;
    var t, k, id := threads[p].(pc := pc), threads[c].(exit := threads[c].exit + 1), threads[c].id;
    var mid, ups := threads[p := t], h.ups[id := h.ups[id] + 1];
    KeepAccounted(threads, h, p, t, ups, h.failed);
    KeepAccounted(mid, h.(ups := ups), c, k, ups, h.failed);
  }

  lemma FreeStep(threads: map<int, Thread>, h: History, p: int)
    requires Inv(threads, h) && p in threads && threads[p].pc == ExitWait && 0 < threads[p].exit
    ensures Inv(threads - {p}, h.(freed := h.freed + {threads[p].id})) && threads[p].id in h.ups &&
      h.ups[threads[p].id] == 1
    ensures forall q :: q in threads ==> !Refers(threads[q], p)
  {
    hide Linked, Counted, LogOk, Accounted, Eligible, Refers;
    KnownAt(threads, h, p);
    forall q | q in threads ensures !Refers(threads[q], p) { FreedUnreferenced(threads, h, q, p); }
    FreeLinked(threads, p);
    FreeCounted(threads, h, p);
    FreeAccounted(threads, h, p);
    FreeEligible(threads, h, p);
  }

  lemma FreeEligible(threads: map<int, Thread>, h: History, p: int)
    requires Eligible(threads, h) && p in threads
    ensures Eligible(threads - {p}, h.(freed := h.freed + {threads[p].id}))
  {
    hide Refers;
  }

  lemma FreeLinked(threads: map<int, Thread>, p: int)
    requires Linked(threads) && p in threads && forall q :: q in threads ==> !Refers(threads[q], p)
    ensures Linked(threads - {p})
  {
    hide Local, Refers, Bond;
  }

  lemma FreeCounted(threads: map<int, Thread>, h: History, p: int)
    requires Counted(threads, h.nextId, h.ups, h.stored, h.freed) && p in threads && 0 < threads[p].exit
    ensures Counted(threads - {p}, h.nextId, h.ups, h.stored, h.freed + {threads[p].id})
  {
    KnownAt(threads, h, p);
    var id := threads[p].id;
    forall q | q in threads && q != p ensures Known(threads[q], h.nextId, h.ups, h.stored, h.freed + {id}) {
      assert Known(threads[q], h.nextId, h.ups, h.stored, h.freed);
    }
  }

  lemma FreeAccounted(threads: map<int, Thread>, h: History, p: int)
    requires Linked(threads) && Accounted(threads, h.parent, h.page, h.ups, h.failed) && p in threads &&
      threads[p].pc == ExitWait
    requires threads[p].id in h.ups && h.ups[threads[p].id] == 1
    ensures Accounted(threads - {p}, h.parent, h.page, h.ups, h.failed)
  {
    hide Once, Bond;
    assert Local(threads[p]);
    var threads' := threads - {p};
    forall i | i in h.parent ensures h.ups[i] == 1 || i in h.failed || Waiting(threads', i, h.parent[i], h.page[i]) {
      assert h.ups[i] == 1 || i in h.failed || Waiting(threads, i, h.parent[i], h.page[i]);
    }
  }

  // ----- waiting for a child -----

  /** No child has the tid, or the first that has it was waited for already. */
  ghost predicate Refused(threads: map<int, Thread>, kids: seq<int>, tid: int) {
    exists i :: 0 <= i <= |kids| && (forall j :: 0 <= j < i ==> kids[j] in threads && threads[kids[j]].tid != tid)
      && (i < |kids| ==> kids[i] in threads && threads[kids[i]].tid == tid && threads[kids[i]].waited)
  }

  lemma KidsKnown(threads: map<int, Thread>, h: History, p: int)
    requires Inv(threads, h) && p in threads
    ensures forall i :: 0 <= i < |threads[p].kids| ==> threads[p].kids[i] in threads
  {
    hide Counted, LogOk, Accounted, Eligible, Local, Bond, UsesUnlisted;
    forall i | 0 <= i < |threads[p].kids| ensures threads[p].kids[i] in threads {
      assert Refers(threads[p], threads[p].kids[i]);
    }
  }

  lemma WaitStartStep(threads: map<int, Thread>, h: History, p: int, c: int)
    requires Inv(threads, h) && p in threads && threads[p].pc == User && c in threads[p].kids && c in threads
    ensures c != p && Inv(threads[c := threads[c].(waited := true)][p := threads[p].(pc := WaitDown(c))], h)
  {
    hide Counted, LogOk, Accounted, Eligible, Once;
    ReferredBy(threads, p, c);
    var mid := threads[c := threads[c].(waited := true)];
    KidStep(threads, h, c, threads[c].(waited := true));
    LinkedAt(mid, p);
    SimpleStep(mid, h, p, threads[p].(pc := WaitDown(c)));
  }

  lemma WaitDoneStep(threads: map<int, Thread>, h: History, p: int, c: int)
    requires Inv(threads, h) && p in threads && threads[p].pc == WaitDown(c) && c in threads && 0 < threads[c].wait
    ensures c != p && threads[c].pc == ExitWait &&
      Inv(threads[c := threads[c].(wait := threads[c].wait - 1)][p := threads[p].(pc := WaitRead(c))], h)
  {
    hide Counted, LogOk, Accounted, Eligible, Once;
    LinkedAt(threads, p);
    assert UsesListed(threads[p].pc, c);
    ReferredBy(threads, p, c);
    assert Local(threads[c]);
    var mid := threads[c := threads[c].(wait := threads[c].wait - 1)];
    KidStep(threads, h, c, threads[c].(wait := threads[c].wait - 1));
    LinkedAt(mid, p);
    SimpleStep(mid, h, p, threads[p].(pc := WaitRead(c)));
  }

  lemma WaitFetchStep(threads: map<int, Thread>, h: History, p: int)
    requires Inv(threads, h) && p in threads && threads[p].pc.WaitRead? && threads[p].pc.c in threads
    ensures Inv(threads[p := threads[p].(pc := WaitRemove(threads[p].pc.c, threads[threads[p].pc.c].status))], h)
  {
    hide Counted, LogOk, Accounted, Eligible, Once;
    LinkedAt(threads, p);
    var c := threads[p].pc.c;
    assert UsesListed(threads[p].pc, c);
    SimpleStep(threads, h, p, threads[p].(pc := WaitRemove(c, threads[c].status)));
  }

  lemma WaitUnlistStep(threads: map<int, Thread>, h: History, p: int)
    requires Inv(threads, h) && p in threads && threads[p].pc.WaitRemove?
    ensures Inv(threads[p := threads[p].(kids := Without(threads[p].kids, threads[p].pc.c),
      pc := WaitUp(threads[p].pc.c, threads[p].pc.result))], h)
  {
    hide Counted, LogOk, Accounted, Eligible, Once, Without;
    LinkedAt(threads, p);
    var pc := threads[p].pc;
    assert UsesListed(pc, pc.c);
    WithoutIs(threads[p].kids, pc.c);
    SimpleStep(threads, h, p, threads[p].(kids := Without(threads[p].kids, pc.c), pc := WaitUp(pc.c, pc.result)));
  }

  /** The result about to be returned is the stored status of a child not reaped before. */
  lemma ReapStep(threads: map<int, Thread>, h: History, p: int, c: int, result: int)
    requires Inv(threads, h) && p in threads && threads[p].pc == WaitUp(c, result)
    ensures c in threads && threads[c].id in h.stored && h.stored[threads[c].id] == result
    ensures LogOk(h.log + [Reaped(threads[c].id, result)], h.ups[threads[c].id := 1], h.stored)
    ensures forall k :: 0 <= k < |h.log| ==> h.log[k].id != threads[c].id
  {
    hide Linked, Counted, Accounted, Eligible, Local, UsesListed;
    LinkedAt(threads, p);
    assert UsesUnlisted(threads[p].pc, c);
    assert Refers(threads[p], c);
    KnownAt(threads, h, c);
  }

  lemma ExitUpStep(threads: map<int, Thread>, h: History, p: int, c: int)
    requires Inv(threads, h) && p in threads && threads[p].pc == ExitUp(c)
    ensures c in threads && c != p && threads[c].id in h.ups && h.ups[threads[c].id] == 0
    ensures Inv(threads[p := threads[p].(pc := ExitKids)][c := threads[c].(exit := threads[c].exit + 1)],
              h.(ups := h.ups[threads[c].id := h.ups[threads[c].id] + 1]))
  {
    hide Linked, Counted, LogOk, Accounted, Eligible;
    if c in threads { SameLog(h, threads[c].id); }
    ReleaseStep(threads, h, p, c, ExitKids, h.log);
  }

  lemma SameLog(h: History, id: int)
    requires LogOk(h.log, h.ups, h.stored)
    ensures LogOk(h.log, h.ups[id := 1], h.stored)
  {}

  // ----- what single steps can rely on -----

  lemma SpawnedAlone(threads: map<int, Thread>, threads': map<int, Thread>, h: History, p: int, c: int)
    requires Inv(threads, h) && p in threads && c !in threads && threads' == threads[c := KernelThread(h.nextId, p)]
    ensures h.nextId !in h.parent && forall q :: q in threads' ==> !Refers(threads'[q], c)
  {
    hide Local, Bond, LogOk, Eligible, UsesUnlisted;
    CreateLog(threads, h, p);
    forall q | q in threads' ensures !Refers(threads'[q], c) {
      if q != c { NotReferred(threads, q, c); } else { NewRefersNone(h.nextId, p, c); }
    }
  }

  lemma NotReferred(threads: map<int, Thread>, q: int, c: int)
    requires Linked(threads) && q in threads && c !in threads
    ensures !Refers(threads[q], c)
  {
    hide Local, Bond, Refers;
  }

  lemma NewRefersNone(id: int, p: int, c: int)
    ensures !Refers(KernelThread(id, p), c)
  {}

  /** Only p has c on its list or in its hands, and at most once. */
  lemma OnlyParent(threads: map<int, Thread>, h: History, p: int, c: int)
    requires Inv(threads, h) && p in threads && Refers(threads[p], c)
    ensures Once(threads[p].kids) && (UsesUnlisted(threads[p].pc, c) ==> c !in threads[p].kids)
    ensures forall q :: q in threads && Refers(threads[q], c) ==> q == p
  {
    hide Bond, LogOk, Accounted, Eligible, Counted, Once, UsesListed;
    assert Local(threads[p]);
    ReferredBy(threads, p, c);
  }

  /** Tids of threads that did not fail to load are their birth numbers, so no two are the same. */
  lemma TidsDiffer(threads: map<int, Thread>, h: History, c: int)
    requires Inv(threads, h) && c in threads
    ensures forall q :: q in threads && threads[q].tid == threads[c].tid != TID_ERROR ==> q == c
  {
    hide Linked, LogOk, Accounted, Eligible;
    assert Known(threads[c], h.nextId, h.ups, h.stored, h.freed);
    forall q | q in threads && threads[q].tid == threads[c].tid != TID_ERROR ensures q == c {
      assert Known(threads[q], h.nextId, h.ups, h.stored, h.freed);
    }
  }

  /** Before a load ends load_mutex is at 0, before an exit no status is stored, before
      the signal wait_mutex is at 0. */
  lemma Semaphores(threads: map<int, Thread>, h: History, p: int)
    requires Inv(threads, h) && p in threads
    ensures threads[p].pc == Loading ==> threads[p].load == 0
    ensures !Exiting(threads[p].pc) ==> threads[p].id !in h.stored
    ensures threads[p].pc == ExitNotify ==> threads[p].wait == 0
  {
    hide LogOk, Accounted, Eligible, Once;
    assert Local(threads[p]);
    assert Known(threads[p], h.nextId, h.ups, h.stored, h.freed);
  }

  /** Every child that the thread born as number id loaded had its exit_mutex upped. */
  ghost predicate AllReleased(h: History, id: int) {
    forall i :: i in h.parent && h.parent[i] == id && i !in h.failed ==> i in h.ups && h.ups[i] == 1
  }

  lemma LoopOver(threads: map<int, Thread>, h: History, p: int)
    requires Inv(threads, h) && p in threads && threads[p].pc == ExitNotify
    ensures AllReleased(h, threads[p].id)
  {
    hide Linked, LogOk, Accounted, Eligible;
    forall i | i in h.parent && h.parent[i] == threads[p].id && i !in h.failed ensures i in h.ups && h.ups[i] == 1 {
      ChildrenReleased(threads, h, i);
    }
  }

  lemma FetchedIsStored(threads: map<int, Thread>, h: History, p: int, c: int)
    requires Inv(threads, h) && p in threads && threads[p].pc == WaitRead(c) && c in threads
    ensures threads[c].id in h.stored && h.stored[threads[c].id] == threads[c].status
  {
    hide LogOk, Accounted, Eligible, Once;
    LinkedAt(threads, p);
    assert UsesListed(threads[p].pc, c);
    assert Known(threads[c], h.nextId, h.ups, h.stored, h.freed);
  }

  class ProcessTable {
    /** The threads, by the page that holds them. */
    var threads: map<int, Thread>
    var nextTid: int
    ghost var h: History

    ghost predicate Valid()
      reads this
    {
      Inv(threads, h) && nextTid == h.nextId
    }

    ghost function Now(): World
      reads this
    {
      World(threads, h)
    }

    /** One first thread, which no one waits for. */
    constructor (first: int)
      ensures Valid() && Now() == FirstWorld(first)
    {
      hide Inv;
      threads := map[first := Thread(0, 0, first, User, [], false, 0, 0, 0, 0)];
      nextTid := 1;
      h := FirstWorld(first).h;
      new;
      Initially(first);
    }

    // ----- exec -----

    /** thread_create outside exec: the new thread is on no child_list, so no one will ever release it. */
    method Spawn(p: int, c: int)
      requires Valid() && Enabled(Now(), Event.Spawn(p, c))
      modifies this
      ensures Valid() && Now() == After(old(Now()), Event.Spawn(p, c))
      ensures threads[c].id !in h.parent && forall q :: q in threads ==> !Refers(threads[q], c)
    {
      hide Inv, Refers;
      SpawnStep(threads, h, p, c);
      SpawnedAlone(threads, threads[c := KernelThread(nextTid, p)], h, p, c);
      h := After(Now(), Event.Spawn(p, c)).h;
      threads := threads[c := KernelThread(nextTid, p)];
      nextTid := nextTid + 1;
    }

    /** thread_create up to thread_unblock: a fresh page for the child. */
    method Create(p: int, c: int)
      requires Valid() && Enabled(Now(), Event.Create(p, c))
      modifies this
      ensures Valid() && Now() == After(old(Now()), Event.Create(p, c))
      ensures forall q :: q in threads && Refers(threads[q], c) ==> q == p
    {
      hide Inv;
      CreateStep(threads, h, p, c);
      h := After(Now(), Event.Create(p, c)).h;
      threads := threads[c := NewThread(nextTid, p)];
      threads := threads[p := threads[p].(pc := ExecPush(c))];
      nextTid := nextTid + 1;
      OnlyParent(threads, h, p, c);
    }

    /** list_push_back (&child_list, &t->child_elem) */
    method Push(p: int)
      requires Valid() && Enabled(Now(), Event.Push(p))
      modifies this`threads
      ensures Valid() && Now() == After(old(Now()), Event.Push(p))
      ensures Once(threads[p].kids) && forall q :: q in threads && old(threads)[p].pc.c in threads[q].kids ==> q == p
    {
      hide Inv, Once;
      PushStep(threads, h, p);
      var c := threads[p].pc.c;
      threads := threads[p := threads[p].(kids := threads[p].kids + [c], pc := ExecDown(c))];
      OnlyParent(threads, h, p, c);
    }

    /** sema_down (&t->load_mutex) completes, not before the child's load is over. */
    method LoadDown(p: int)
      requires Valid() && Enabled(Now(), Event.LoadDown(p))
      modifies this`threads
      ensures Valid() && Now() == After(old(Now()), Event.LoadDown(p)) &&
        old(threads)[old(threads)[p].pc.c].pc != Loading
    {
      hide Inv;
      var c := threads[p].pc.c;
      LoadDownStep(threads, h, p, c);
      threads := threads[c := threads[c].(load := threads[c].load - 1)];
      threads := threads[p := threads[p].(pc := ExecCheck(c))];
    }

    /** The end of exec: a child whose load failed leaves the list, and nobody will release it. */
    method ExecReturn(p: int) returns (tid: int)
      requires Valid() && Enabled(Now(), Event.ExecReturn(p))
      modifies this`threads, this`h
      ensures Valid() && Now() == After(old(Now()), Event.ExecReturn(p)) &&
        tid == old(threads)[old(threads)[p].pc.c].tid
      ensures tid != TID_ERROR ==> forall q :: q in threads && threads[q].tid == tid ==> q == old(threads)[p].pc.c
    {
      hide Inv, Without;
      var c := threads[p].pc.c;
      TidsDiffer(threads, h, c);
      tid := threads[c].tid;
      if tid == TID_ERROR {
        FailedStep(threads, h, p, c);
        h := h.(failed := h.failed + {threads[c].id});
        threads := threads[p := threads[p].(kids := Without(threads[p].kids, c), pc := User)];
      } else {
        LoadedStep(threads, h, p);
        threads := threads[p := threads[p].(pc := User)];
      }
    }

    /** The end of load in start_process: tid tells the parent whether it failed. */
    method LoadDone(p: int, success: bool)
      requires Valid() && Enabled(Now(), Event.LoadDone(p, success))
      modifies this`threads
      ensures Valid() && Now() == After(old(Now()), Event.LoadDone(p, success)) && threads[p].load == 1
    {
      hide Inv;
      Semaphores(threads, h, p);
      LoadDoneStep(threads, h, p, success);
      if !success { threads := threads[p := threads[p].(tid := TID_ERROR)]; }
      threads := threads[p := threads[p].(load := threads[p].load + 1, pc := if success then User else Failing)];
      assert threads == old(threads)[p := Loaded(old(threads)[p], success)];
    }

    // ----- exit -----

    /** exit (status), a kill (status -1), or the exit of a thread whose load failed; a status is stored once. */
    method Exit(p: int, status: int)
      requires Valid() && Enabled(Now(), Event.Exit(p, status))
      modifies this`threads, this`h
      ensures Valid() && Now() == After(old(Now()), Event.Exit(p, status))
      ensures old(threads)[p].id !in old(h).stored
    {
      hide Inv;
      Semaphores(threads, h, p);
      ExitStep(threads, h, p, status);
      h := h.(stored := h.stored[threads[p].id := status]);
      threads := threads[p := threads[p].(status := status, pc := ExitKids)];
    }

    /** One round of thread_exit's loop over child_list: the first child leaves the
        list; at the end all loaded children are released. */
    method ExitNext(p: int)
      requires Valid() && Enabled(Now(), Event.ExitNext(p))
      modifies this`threads
      ensures Valid() && Now() == After(old(Now()), Event.ExitNext(p))
      ensures threads[p].pc == ExitNotify ==> AllReleased(h, threads[p].id)
    {
      hide Inv, AllReleased;
      ExitNextStep(threads, h, p);
      if threads[p].kids == [] {
        threads := threads[p := threads[p].(pc := ExitNotify)];
      } else {
        var c := threads[p].kids[0];
        threads := threads[p := threads[p].(kids := threads[p].kids[1..], pc := ExitUp(c))];
      }
      if threads[p].pc == ExitNotify { LoopOver(threads, h, p); }
    }

    /** sema_up (&child->exit_mutex), for the first and only time. */
    method ExitRelease(p: int)
      requires Valid() && Enabled(Now(), Event.ExitRelease(p))
      modifies this`threads, this`h
      ensures Valid() && Now() == After(old(Now()), Event.ExitRelease(p))
      ensures var id := old(threads)[old(threads)[p].pc.c].id; id in old(h).ups && old(h).ups[id] == 0
    {
      hide Inv;
      var c := threads[p].pc.c;
      ExitUpStep(threads, h, p, c);
      h := Upped(h, threads[c].id);
      threads := threads[p := threads[p].(pc := ExitKids)];
      threads := threads[c := threads[c].(exit := threads[c].exit + 1)];
    }

    /** sema_up (&wait_mutex) */
    method ExitSignal(p: int)
      requires Valid() && Enabled(Now(), Event.ExitSignal(p))
      modifies this`threads
      ensures Valid() && Now() == After(old(Now()), Event.ExitSignal(p)) && threads[p].wait == 1
    {
      hide Inv;
      Semaphores(threads, h, p);
      ExitSignalStep(threads, h, p);
      threads := threads[p := threads[p].(wait := threads[p].wait + 1, pc := ExitWait)];
    }

    /**
     * sema_down (&exit_mutex) completes, the thread dies and its page is freed:
     * no thread has it on its list or is about to use it.
     */
    method Free(p: int)
      requires Valid() && Enabled(Now(), Event.Free(p))
      modifies this`threads, this`h
      ensures Valid() && Now() == After(old(Now()), Event.Free(p))
      ensures forall q :: q in old(threads) ==> !Refers(old(threads)[q], p)
      ensures old(threads)[p].id in h.ups && h.ups[old(threads)[p].id] == 1
    {
      hide Inv, Refers;
      FreeStep(threads, h, p);
      h := h.(freed := h.freed + {threads[p].id});
      threads := threads - {p};
    }

    // ----- wait -----

    /**
     * process_wait up to its sema_down: the first child with the given tid, if
     * there is one that was not waited for before; otherwise -1 at once.
     */
    method WaitStart(p: int, tid: int) returns (child: Option<int>)
      requires Valid() && p in threads && threads[p].pc == User
      modifies this`threads
      ensures Valid()
      ensures child.None? ==> Now() == old(Now()) && Refused(threads, threads[p].kids, tid)
      ensures child.Some? ==>
        Enabled(old(Now()), Event.WaitStart(p, child.value)) && old(threads)[child.value].tid == tid
      ensures child.Some? ==> Now() == After(old(Now()), Event.WaitStart(p, child.value))
      ensures child.Some? && tid != TID_ERROR ==> forall q :: q in threads && threads[q].tid == tid ==> q == child.value
    {
      hide Inv;
      KidsKnown(threads, h, p);
      var kids, i := threads[p].kids, 0;
      while i < |kids| && threads[kids[i]].tid != tid
        invariant 0 <= i <= |kids|
        invariant forall j :: 0 <= j < i ==> threads[kids[j]].tid != tid
      {
        i := i + 1;
      }
      if i == |kids| || threads[kids[i]].waited {
        child := None;
      } else {
        var c := kids[i];
        WaitStartStep(threads, h, p, c);
        TidsDiffer(threads, h, c);
        threads := threads[c := threads[c].(waited := true)];
        threads := threads[p := threads[p].(pc := WaitDown(c))];
        child := Some(c);
      }
    }

    /** sema_down (&child->wait_mutex) completes: the child has stored its status and only waits to be freed. */
    method WaitDone(p: int)
      requires Valid() && Enabled(Now(), Event.WaitDone(p))
      modifies this`threads
      ensures Valid() && Now() == After(old(Now()), Event.WaitDone(p)) &&
        old(threads)[old(threads)[p].pc.c].pc == ExitWait
    {
      hide Inv;
      var c := threads[p].pc.c;
      WaitDoneStep(threads, h, p, c);
      threads := threads[c := threads[c].(wait := threads[c].wait - 1)];
      threads := threads[p := threads[p].(pc := WaitRead(c))];
    }

    /** result = child->exit_status, the status the child stored. */
    method WaitFetch(p: int)
      requires Valid() && Enabled(Now(), Event.WaitFetch(p))
      modifies this`threads
      ensures Valid() && Now() == After(old(Now()), Event.WaitFetch(p))
      ensures var id := old(threads)[old(threads)[p].pc.c].id; id in h.stored && threads[p].pc.result == h.stored[id]
    {
      hide Inv;
      WaitFetchStep(threads, h, p);
      var c := threads[p].pc.c;
      FetchedIsStored(threads, h, p, c);
      threads := threads[p := threads[p].(pc := WaitRemove(c, threads[c].status))];
    }

    /** list_remove (&child->child_elem) */
    method WaitUnlist(p: int)
      requires Valid() && Enabled(Now(), Event.WaitUnlist(p))
      modifies this`threads
      ensures Valid() && Now() == After(old(Now()), Event.WaitUnlist(p))
      ensures forall q :: q in threads ==> old(threads)[p].pc.c !in threads[q].kids
    {
      hide Inv, Without;
      WaitUnlistStep(threads, h, p);
      var pc := threads[p].pc;
      threads := threads[p := threads[p].(kids := Without(threads[p].kids, pc.c), pc := WaitUp(pc.c, pc.result))];
      OnlyParent(threads, h, p, pc.c);
    }

    /** sema_up (&child->exit_mutex) and return: the child is reaped, for the first and only time. */
    method WaitReturn(p: int) returns (result: int)
      requires Valid() && Enabled(Now(), Event.WaitReturn(p))
      modifies this`threads, this`h
      ensures Valid() && Now() == After(old(Now()), Event.WaitReturn(p))
      ensures var id := old(threads)[old(threads)[p].pc.c].id;
              && id in h.stored && result == h.stored[id] && h.log == old(h).log + [Reaped(id, result)]
              && forall k :: 0 <= k < |old(h).log| ==> old(h).log[k].id != id
    {
      hide Inv, LogOk;
      var c := threads[p].pc.c;
      result := threads[p].pc.result;
      ReapStep(threads, h, p, c, result);
      ReleaseStep(threads, h, p, c, User, h.log + [Reaped(threads[c].id, result)]);
      h := Upped(h, threads[c].id).(log := h.log + [Reaped(threads[c].id, result)]);
      threads := threads[p := threads[p].(pc := User)];
      threads := threads[c := threads[c].(exit := threads[c].exit + 1)];
    }
  }
}
