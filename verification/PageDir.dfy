/**
 * The two-level page directory of pintos/src/userprog/pagedir.c.  A word of
 * memory is named by its page and its index there, which EntriesApart shows to
 * be as good as its address; pages that palloc hands out are parameters.
 */
module PageDir {
  import opened Options
  import opened PageTables
  import opened Seqs

  /** What a user page is mapped to. */
  datatype Mapping = Mapping(frame: Word, writable: bool)

  datatype Addr = Addr(page: Word, idx: Word)

  predicate UserIdx(i: Word) { i < USER_PDES }

  predicate Idx(j: Word) { j < ENTRIES }

  /** Entry j of the page directory or page table on page pt. */
  function Slot(mem: map<Addr, Word>, pt: Word, j: Word): Word { if Addr(pt, j) in mem then mem[Addr(pt, j)] else 0 }

  /** The page table of directory entry i. */
  function Table(mem: map<Addr, Word>, pd: Word, i: Word): Word { PdeGetPt(Slot(mem, pd, i)) }

  ghost predicate TableOk(mem: map<Addr, Word>, pd: Word, i: Word) {
    Slot(mem, pd, i) != 0 ==> Present(Slot(mem, pd, i)) && KernelPage(Table(mem, pd, i)) && Table(mem, pd, i) != pd
  }

  /** The user half of a directory: each entry is empty or has a page table of its own. */
  ghost predicate DirOk(mem: map<Addr, Word>, pd: Word) {
    && KernelPage(pd)
    && (forall i :: UserIdx(i) ==> TableOk(mem, pd, i))
    && (forall i, k :: UserIdx(i) && UserIdx(k) && i != k && Slot(mem, pd, i) != 0 && Slot(mem, pd, k) != 0 ==>
         Table(mem, pd, i) != Table(mem, pd, k))
  }

  /** The partial map a directory stands for, on pairs of indices. */
  function Translate(mem: map<Addr, Word>, pd: Word, i: Word, j: Word): Option<Mapping> {
    if Slot(mem, pd, i) == 0 then None
    else
      var e := Slot(mem, Table(mem, pd, i), j);
      if Present(e) then Some(Mapping(PteGetPage(e), Writable(e))) else None
  }

  /** The same map on user addresses. */
  function MapsTo(mem: map<Addr, Word>, pd: Word, va: Word): Option<Mapping> { Translate(mem, pd, PdNo(va), PtNo(va)) }

  ghost predicate SameTranslation(mem: map<Addr, Word>, mem': map<Addr, Word>, pd: Word) {
    forall i, j :: UserIdx(i) && Idx(j) ==> Translate(mem', pd, i, j) == Translate(mem, pd, i, j)
  }

  /** Page p is neither the directory nor one of its page tables. */
  ghost predicate Outside(mem: map<Addr, Word>, pd: Word, p: Word) {
    p != pd && forall i :: UserIdx(i) && Slot(mem, pd, i) != 0 ==> Table(mem, pd, i) != p
  }

  /** The kernel half of the directory and every page outside it are as before. */
  ghost predicate Untouched(mem: map<Addr, Word>, mem': map<Addr, Word>, pd: Word) {
    && (forall i :: Idx(i) && !UserIdx(i) ==> Slot(mem', pd, i) == Slot(mem, pd, i))
    && (forall p, j :: PgOfs(p) == 0 && Idx(j) && Outside(mem', pd, p) ==> Slot(mem', p, j) == Slot(mem, p, j))
  }

  /** A page that palloc_get_page (PAL_ZERO) may return. */
  ghost predicate Fresh(mem: map<Addr, Word>, pd: Word, page: Word) {
    KernelPage(page) && Outside(mem, pd, page) && forall j :: Idx(j) ==> Slot(mem, page, j) == 0
  }

  /** mem' differs from mem in entry j of page pt at most. */
  ghost predicate OneWord(mem: map<Addr, Word>, mem': map<Addr, Word>, pt: Word, j: Word, w: Word) {
    forall p, k :: Slot(mem', p, k) == if p == pt && k == j then w else Slot(mem, p, k)
  }

  lemma Write(mem: map<Addr, Word>, pt: Word, j: Word, w: Word)
    ensures OneWord(mem, mem[Addr(pt, j) := w], pt, j, w)
  {}

  lemma ZeroAbsent()
    ensures !Present(0)
  {}

  lemma DirAt(mem: map<Addr, Word>, pd: Word, i: Word)
    requires DirOk(mem, pd) && UserIdx(i)
    ensures TableOk(mem, pd, i)
    ensures Slot(mem, pd, i) != 0 ==> forall k :: UserIdx(k) && k != i && Slot(mem, pd, k) != 0 ==>
      Table(mem, pd, k) != Table(mem, pd, i)
  {
    hide TableOk, KernelPage, UserIdx, Slot, Table;
  }

  /** A new page table, all zero, maps nothing. */
  lemma AddTable(mem: map<Addr, Word>, mem': map<Addr, Word>, pd: Word, i: Word, page: Word)
    requires DirOk(mem, pd) && UserIdx(i) && Slot(mem, pd, i) == 0 && Fresh(mem, pd, page) &&
      OneWord(mem, mem', pd, i, PdeCreate(page))
    ensures DirOk(mem', pd) && Slot(mem', pd, i) != 0 && Table(mem', pd, i) == page && Untouched(mem, mem', pd)
  {
    hide PgOfs, PdeCreate, PdeGetPt, Present, UserIdx, Idx, Writable, PteGetPage, Slot;
    PdeRoundTrip(page);
  }

  lemma AddTableTranslation(mem: map<Addr, Word>, mem': map<Addr, Word>, pd: Word, i: Word, page: Word)
    requires DirOk(mem, pd) && UserIdx(i) && Slot(mem, pd, i) == 0 && Fresh(mem, pd, page) &&
      OneWord(mem, mem', pd, i, PdeCreate(page))
    ensures SameTranslation(mem, mem', pd)
  {
    hide PgOfs, PdeCreate, PdeGetPt, Present, UserIdx, Idx, Writable, PteGetPage, Slot, DirOk, KernelPage;
    PdeRoundTrip(page);
    ZeroAbsent();
    forall a, b | UserIdx(a) && Idx(b) ensures Translate(mem', pd, a, b) == Translate(mem, pd, a, b) {
      DirAt(mem, pd, a);
    }
  }

  function Decoded(e: Word): Option<Mapping> { if Present(e) then Some(Mapping(PteGetPage(e), Writable(e))) else None }

  /** Changing one entry of a page table changes one page's translation. */
  lemma SetEntryAt(mem: map<Addr, Word>, mem': map<Addr, Word>, pd: Word, i: Word, j: Word, w: Word, a: Word, b: Word)
    requires DirOk(mem, pd) && UserIdx(i) && UserIdx(a) && Slot(mem, pd, i) != 0 &&
      OneWord(mem, mem', Table(mem, pd, i), j, w)
    ensures Slot(mem', pd, a) == Slot(mem, pd, a)
    ensures Translate(mem', pd, a, b) == if a == i && b == j then Decoded(w) else Translate(mem, pd, a, b)
  {
    hide PgOfs, PdeGetPt, Present, UserIdx, Writable, PteGetPage, Slot, DirOk, KernelPage;
    DirAt(mem, pd, i);
    DirAt(mem, pd, a);
  }

  lemma SetEntry(mem: map<Addr, Word>, mem': map<Addr, Word>, pd: Word, i: Word, j: Word, w: Word)
    requires DirOk(mem, pd) && UserIdx(i) && Idx(j) && Slot(mem, pd, i) != 0 &&
      OneWord(mem, mem', Table(mem, pd, i), j, w)
    ensures DirOk(mem', pd) && Untouched(mem, mem', pd)
  {
    hide PgOfs, PdeGetPt, Present, UserIdx, Idx, Writable, PteGetPage, Slot, KernelPage, Translate;
    DirAt(mem, pd, i);
    forall a ensures Slot(mem', pd, a) == Slot(mem, pd, a) {}
  }

  lemma Numbers(va: Word)
    requires IsUser(va)
    ensures UserIdx(PdNo(va)) && Idx(PtNo(va))
  {
    NumbersBound(va);
  }

  lemma Aligned(page: Word)
    requires PgOfs(page) == 0
    ensures PgRoundDown(page) == page
  {}

  /** One entry changed, seen from user addresses. */
  lemma OnePageChanged(mem: map<Addr, Word>, mem1: map<Addr, Word>, mem2: map<Addr, Word>, pd: Word, upage: Word,
                       w: Word)
    requires DirOk(mem1, pd) && SameTranslation(mem, mem1, pd) && IsUser(upage) && PgOfs(upage) == 0 &&
      Slot(mem1, pd, PdNo(upage)) != 0
    requires OneWord(mem1, mem2, Table(mem1, pd, PdNo(upage)), PtNo(upage), w)
    ensures forall va :: IsUser(va) ==> MapsTo(mem2, pd, va) == if PgRoundDown(va) == upage then Decoded(w)
      else MapsTo(mem, pd, va)
  {
    hide PgOfs, PdeGetPt, Present, UserIdx, Idx, Slot, DirOk, PdNo, PtNo, PgRoundDown, IsUser, Decoded, Translate;
    Numbers(upage);
    Aligned(upage);
    forall va | IsUser(va) ensures MapsTo(mem2, pd, va) == if PgRoundDown(va) == upage then Decoded(w)
      else MapsTo(mem, pd, va) {
      Numbers(va);
      SamePage(va, upage);
      SetEntryAt(mem1, mem2, pd, PdNo(upage), PtNo(upage), w, PdNo(va), PtNo(va));
    }
  }

  lemma UntouchedTrans(mem: map<Addr, Word>, mem1: map<Addr, Word>, mem2: map<Addr, Word>, pd: Word)
    requires Untouched(mem, mem1, pd) && Untouched(mem1, mem2, pd) && forall i :: Slot(mem2, pd, i) == Slot(mem1, pd, i)
    ensures Untouched(mem, mem2, pd)
  {
    hide PgOfs, PdeGetPt, UserIdx, Idx, Slot;
  }

  lemma DirSlotsKept(mem: map<Addr, Word>, mem': map<Addr, Word>, pd: Word, i: Word, j: Word, w: Word)
    requires DirOk(mem, pd) && UserIdx(i) && Slot(mem, pd, i) != 0 && OneWord(mem, mem', Table(mem, pd, i), j, w)
    ensures forall k :: Slot(mem', pd, k) == Slot(mem, pd, k)
  {
    hide PgOfs, PdeGetPt, Present, UserIdx, Slot, DirOk, KernelPage;
    DirAt(mem, pd, i);
  }

  /** The first n words of page pd are those page from had; other pages are as before. */
  ghost predicate Copied(mem0: map<Addr, Word>, mem: map<Addr, Word>, pd: Word, from: Word, n: Word) {
    && (forall k :: Before(k, n) ==> Slot(mem, pd, k) == Slot(mem0, from, k))
    && (forall p, k :: p != pd ==> Slot(mem, p, k) == Slot(mem0, p, k))
  }

  lemma CopiedNone(mem: map<Addr, Word>, pd: Word, from: Word)
    ensures Copied(mem, mem, pd, from, 0)
  {
    hide Slot, Before;
    forall k ensures !Before(k, 0) { NoneBefore(k); }
  }

  lemma CopiedNext(mem0: map<Addr, Word>, mem: map<Addr, Word>, pd: Word, from: Word, i: Word)
    requires Copied(mem0, mem, pd, from, i) && i < ENTRIES && pd != from
    ensures Copied(mem0, mem[Addr(pd, i) := Slot(mem, from, i)], pd, from, i + 1)
  {
    hide Slot, Before;
    BeforeNext(i);
    Write(mem, pd, i, Slot(mem, from, i));
  }

  lemma CopiedAll(mem0: map<Addr, Word>, mem: map<Addr, Word>, pd: Word, from: Word)
    requires Copied(mem0, mem, pd, from, ENTRIES)
    ensures (forall i :: Idx(i) ==> Slot(mem, pd, i) == Slot(mem0, from, i)) &&
      forall p, k :: p != pd ==> Slot(mem, p, k) == Slot(mem0, p, k)
    ensures forall i :: UserIdx(i) ==> Slot(mem, pd, i) == Slot(mem0, from, i)
  {
    hide Slot;
    forall i ensures (Idx(i) <==> Before(i, ENTRIES)) && (UserIdx(i) ==> Before(i, ENTRIES)) {}
  }

  /** The byte of a frame that a user address stands for. */
  function ByteAt(frame: Word, va: Word): Word { frame + PgOfs(va) }

  class Memory {
    var mem: map<Addr, Word>

    /** `pagedir_create`: a copy of the kernel's directory, whose user half is empty. */
    method PagedirCreate(initPageDir: Word, page: Option<Word>) returns (pd: Option<Word>)
      requires page.Some? ==> KernelPage(page.value) && page.value != initPageDir
      requires forall i :: UserIdx(i) ==> Slot(mem, initPageDir, i) == 0
      modifies this
      ensures pd == page && (pd.None? ==> mem == old(mem))
      ensures pd.Some? ==> DirOk(mem, pd.value) && forall va :: IsUser(va) ==> MapsTo(mem, pd.value, va) == None
      ensures pd.Some? ==> forall i :: Idx(i) ==> Slot(mem, pd.value, i) == Slot(old(mem), initPageDir, i)
      ensures pd.Some? ==> forall p, i :: p != pd.value ==> Slot(mem, p, i) == Slot(old(mem), p, i)
      ensures pd.Some? ==> FramesApart(mem, pd.value)
    {
      hide FramesApart, PgOfs, UserIdx, Idx, Slot, PdNo, PtNo, IsUser, KernelPage, DirOk, Copied, MapsTo;
      pd := page;
      if pd.Some? {
        var i: Word := 0;
        CopiedNone(mem, pd.value, initPageDir);
        while i < ENTRIES
          invariant i <= ENTRIES && Copied(old(mem), mem, pd.value, initPageDir, i)
          decreases ENTRIES - i
        {
          CopiedNext(old(mem), mem, pd.value, initPageDir, i);
          mem := mem[Addr(pd.value, i) := Slot(mem, initPageDir, i)];
          i := i + 1;
        }
        CopiedAll(old(mem), mem, pd.value, initPageDir);
        EmptyDir(mem, pd.value);
        EmptyApart(mem, pd.value);
      }
    }

    static lemma EmptyDir(mem: map<Addr, Word>, pd: Word)
      requires KernelPage(pd) && forall i :: UserIdx(i) ==> Slot(mem, pd, i) == 0
      ensures DirOk(mem, pd) && forall va :: IsUser(va) ==> MapsTo(mem, pd, va) == None
    {
      hide PgOfs, PdeGetPt, Present, UserIdx, Idx, Slot, PdNo, PtNo, IsUser, KernelPage;
      forall va | IsUser(va) ensures MapsTo(mem, pd, va) == None { Numbers(va); }
    }

    /** `lookup_page`: the entry for va, which must be a user address only if a page table may be
        created; page is what palloc_get_page (PAL_ZERO) would return. */
    method LookupPage(pd: Word, va: Word, create: bool, page: Option<Word>) returns (pte: Option<Addr>)
      requires DirOk(mem, pd) && (create ==> IsUser(va)) && (page.Some? ==> Fresh(mem, pd, page.value))
      modifies this
      ensures DirOk(mem, pd) && SameTranslation(old(mem), mem, pd) && Untouched(old(mem), mem, pd)
      ensures pte.None? <==> Slot(old(mem), pd, PdNo(va)) == 0 && (!create || page.None?)
      ensures pte.None? || !create ==> mem == old(mem)
      ensures pte.Some? ==> Slot(mem, pd, PdNo(va)) != 0 && pte.value == Addr(Table(mem, pd, PdNo(va)), PtNo(va))
      ensures FramesApart(old(mem), pd) && NewTo(old(mem), pd, page) ==> FramesApart(mem, pd)
      ensures FramesApart(old(mem), pd) && NewTo(old(mem), pd, page) ==>
        forall x :: Owned(mem, pd, USER_PDES, x) ==>
          Owned(old(mem), pd, USER_PDES, x) || (page.Some? && page.value == x)
    {
      hide FramesApart, Owned, DirOk, Slot, PdNo, PtNo, IsUser, PdeCreate, PdeGetPt, UserIdx, Idx, Fresh, OneWord;
      if Slot(mem, pd, PdNo(va)) == 0 {
        if !create || page.None? { return None; }
        Numbers(va);
        ghost var before := mem;
        Write(mem, pd, PdNo(va), PdeCreate(page.value));
        mem := mem[Addr(pd, PdNo(va)) := PdeCreate(page.value)];
        AddTable(before, mem, pd, PdNo(va), page.value);
        AddTableTranslation(before, mem, pd, PdNo(va), page.value);
        if FramesApart(before, pd) && NewTo(before, pd, page) { NewTableApart(before, mem, pd, PdNo(va), page.value); }
      }
      pte := Some(Addr(PdeGetPt(Slot(mem, pd, PdNo(va))), PtNo(va)));
    }

    /** `pagedir_set_page`: exactly one page's translation changes, or nothing if no page table can be had. */
    method PagedirSetPage(pd: Word, upage: Word, kpage: Word, writable: bool, page: Option<Word>) returns (ok: bool)
      requires DirOk(mem, pd) && (page.Some? ==> Fresh(mem, pd, page.value))
      requires IsUser(upage) && PgOfs(upage) == 0 && KernelPage(kpage) && MapsTo(mem, pd, upage) == None
      modifies this
      ensures DirOk(mem, pd) && Untouched(old(mem), mem, pd)
      ensures ok <==> Slot(old(mem), pd, PdNo(upage)) != 0 || page.Some?
      ensures !ok ==> mem == old(mem)
      ensures ok ==> forall va :: IsUser(va) ==>
        MapsTo(mem, pd, va) == if PgRoundDown(va) == upage then Some(Mapping(kpage, writable))
          else MapsTo(old(mem), pd, va)
      ensures
        && FramesApart(old(mem), pd)
        && NewTo(old(mem), pd, page)
        && NewTo(old(mem), pd, Some(kpage))
        && page != Some(kpage)
        && kpage != pd
        ==> FramesApart(mem, pd)
    {
      hide FramesApart, Owned, FrameIn, DirOk, Slot, PdNo, PtNo, IsUser, PdeGetPt, UserIdx, Idx, Fresh, OneWord,
        Untouched, SameTranslation, MapsTo, PgRoundDown, PgOfs, KernelPage,
        Present, PteGetPage, Writable, PteCreateUser;
      var pte := LookupPage(pd, upage, true, page);
      ok := pte.Some?;
      if ok {
        ghost var before := mem;
        var e := PteCreateUser(kpage, writable);
        Write(mem, pte.value.page, pte.value.idx, e);
        mem := mem[pte.value := e];
        Numbers(upage);
        SetEntry(before, mem, pd, PdNo(upage), PtNo(upage), e);
        DirSlotsKept(before, mem, pd, PdNo(upage), PtNo(upage), e);
        UntouchedTrans(old(mem), before, mem, pd);
        OnePageChanged(old(mem), before, mem, pd, upage, e);
        PteRoundTrip(kpage, writable);
        if FramesApart(before, pd) && kpage != pd && !Owned(before, pd, USER_PDES, kpage) {
          MapApart(before, mem, pd, PdNo(upage), PtNo(upage), e);
        }
      }
    }

    /** `pagedir_get_page`: the kernel address of the byte, or null. */
    method PagedirGetPage(pd: Word, uaddr: Word) returns (r: Option<Word>)
      requires DirOk(mem, pd) && IsUser(uaddr)
      modifies this
      ensures mem == old(mem)
      ensures r == match MapsTo(mem, pd, uaddr) { case None => None case Some(m) => Some(ByteAt(m.frame, uaddr)) }
    {
      hide DirOk, Slot, PdNo, PtNo, IsUser, PdeGetPt, UserIdx, Idx, Fresh, SameTranslation, Untouched, PgOfs, Present,
        PteGetPage, Writable, ByteAt;
      var pte := LookupPage(pd, uaddr, false, None);
      r := None;
      if pte.Some? {
        var e := Slot(mem, pte.value.page, pte.value.idx);
        if Present(e) { r := Some(ByteAt(PteGetPage(e), uaddr)); }
      }
    }

    /** `pagedir_clear_page`: the page is unmapped, if it was mapped; every other page keeps its translation. */
    method PagedirClearPage(pd: Word, upage: Word)
      requires DirOk(mem, pd) && IsUser(upage) && PgOfs(upage) == 0
      modifies this
      ensures DirOk(mem, pd) && Untouched(old(mem), mem, pd)
      ensures forall va :: IsUser(va) ==> MapsTo(mem, pd, va) == if PgRoundDown(va) == upage then None
        else MapsTo(old(mem), pd, va)
      ensures FramesApart(old(mem), pd) ==> FramesApart(mem, pd)
    {
      hide FramesApart, Owned, DirOk, Slot, PdNo, PtNo, IsUser, PdeGetPt, UserIdx, Idx, Fresh, OneWord, Untouched,
        SameTranslation, PgRoundDown, PgOfs, Present, PteGetPage, Writable, NotPresent;
      var pte := LookupPage(pd, upage, false, None);
      Numbers(upage);
      if pte.Some? {
        var e := Slot(mem, pte.value.page, pte.value.idx);
        if Present(e) {
          ghost var before := mem;
          mem := mem[pte.value := NotPresent(e)];
          ClearFacts(before, pd, upage, e);
          return;
        }
      }
      AlreadyClear(mem, pd, upage);
    }

    /** `palloc_free_page`, which overwrites the page with 0xcc. */
    method PallocFreePage(page: Word)
      modifies this
      ensures Filled(old(mem), mem, page, ENTRIES)
    {
      hide Slot, Filled;
      var j: Word := 0;
      FillNone(mem, page);
      while j < ENTRIES
        invariant j <= ENTRIES && Filled(old(mem), mem, page, j)
        decreases ENTRIES - j
      {
        FillNext(old(mem), mem, page, j);
        mem := mem[Addr(page, j) := FREED_WORD];
        j := j + 1;
      }
    }

    /** The frames of one page table, in the order they are freed. */
    method FreeFrames(pt: Word) returns (freed: seq<Page>)
      modifies this
      ensures Overwritten(old(mem), mem, freed)
      ensures !FrameIn(old(mem), pt, ENTRIES, pt) ==> FramesFreed(old(mem), pt, ENTRIES, freed)
    {
      hide Present, PteGetPage, Slot, FramesFreed, FrameIn, Filled, Overwritten;
      freed := [];
      var j: Word := 0;
      NoFrames(mem, pt, freed);
      OverwriteNone(mem);
      while j < ENTRIES
        invariant j <= ENTRIES && Overwritten(old(mem), mem, freed)
        invariant !FrameIn(old(mem), pt, ENTRIES, pt) ==> FramesFreed(old(mem), pt, j, freed)
        decreases ENTRIES - j
      {
        ghost var before := mem;
        if !FrameIn(old(mem), pt, ENTRIES, pt) {
          TableIntact(old(mem), mem, pt, j, freed);
          FreeFrameFacts(old(mem), pt, j, freed);
        }
        var e := Slot(mem, pt, j);
        if Present(e) {
          PallocFreePage(PteGetPage(e));
          OverwriteOne(old(mem), before, mem, freed, PteGetPage(e));
          freed := freed + [Page(PteGetPage(e))];
        }
        j := j + 1;
      }
    }

    /** One round of `pagedir_destroy`: the frames of directory entry i, then its page table. */
    method FreeTable(pd: Word, i: Word, freed0: seq<Page>, ghost mem0: map<Addr, Word>) returns (freed: seq<Page>)
      requires i < USER_PDES && DirOk(mem0, pd) && Overwritten(mem0, mem, freed0)
      requires TablesApart(mem0, pd) ==> TablesFreed(mem0, pd, i, freed0)
      modifies this
      ensures Overwritten(mem0, mem, freed)
      ensures TablesApart(mem0, pd) ==> TablesFreed(mem0, pd, i + 1, freed)
    {
      hide Present, Slot, DirOk, PdeGetPt, TablesFreed, FramesFreed, FrameIn, Filled, Overwritten, TablesApart;
      ghost var before := mem;
      freed := freed0;
      if TablesApart(mem0, pd) { EntryIntact(mem0, mem, pd, i, freed0); }
      var e := Slot(mem, pd, i);
      if Present(e) {
        var pt := PdeGetPt(e);
        var frames := FreeFrames(pt);
        OverwriteMore(mem0, before, mem, freed0, frames);
        if TablesApart(mem0, pd) { RoundFacts(mem0, before, pd, i, freed0, frames); }
        ghost var after := mem;
        PallocFreePage(pt);
        OverwriteOne(mem0, after, mem, freed0 + frames, pt);
        freed := freed0 + frames + [Page(pt)];
      } else if TablesApart(mem0, pd) {
        SkipFacts(mem0, pd, i, freed0);
      }
    }

    /**
     * `pagedir_destroy` overwrites exactly the pages it frees.  They are the
     * directory, its page tables and the frames these map, unless a frame is a page
     * table or the directory itself, which would be overwritten before it is read;
     * each is freed once if no frame is mapped twice either.
     */
    method PagedirDestroy(pd: Option<Word>) returns (freed: seq<Page>)
      requires pd.Some? ==> DirOk(mem, pd.value)
      modifies this
      ensures Overwritten(old(mem), mem, freed)
      ensures pd.None? ==> freed == []
      ensures pd.Some? && TablesApart(old(mem), pd.value) ==>
        forall x :: Page(x) in freed <==> x == pd.value || Owned(old(mem), pd.value, USER_PDES, x)
      ensures pd.Some? && FramesApart(old(mem), pd.value) ==> Once(freed)
    {
      hide Slot, DirOk, TablesFreed, Filled, Overwritten, TablesApart, FramesApart, Once, Owned;
      freed := [];
      OverwriteNone(mem);
      if pd.None? { return; }
      var i: Word := 0;
      NoneOwned(mem, pd.value, freed);
      while i < USER_PDES
        invariant i <= USER_PDES && Overwritten(old(mem), mem, freed)
        invariant TablesApart(old(mem), pd.value) ==> TablesFreed(old(mem), pd.value, i, freed)
        decreases ENTRIES - i
      {
        freed := FreeTable(pd.value, i, freed, old(mem));
        i := i + 1;
      }
      ghost var before := mem;
      ApartTables(old(mem), pd.value);
      if TablesApart(old(mem), pd.value) { DirectoryLast(old(mem), pd.value, freed); }
      PallocFreePage(pd.value);
      OverwriteOne(old(mem), before, mem, freed, pd.value);
      freed := freed + [Page(pd.value)];
    }
  }

  /** *pte &= ~PTE_P */
  function NotPresent(e: Word): Word { e & !PTE_P }

  lemma ClearFacts(mem: map<Addr, Word>, pd: Word, upage: Word, e: Word)
    requires DirOk(mem, pd) && IsUser(upage) && PgOfs(upage) == 0 && Slot(mem, pd, PdNo(upage)) != 0
    ensures var mem' := mem[Addr(Table(mem, pd, PdNo(upage)), PtNo(upage)) := NotPresent(e)];
            && DirOk(mem', pd) && Untouched(mem, mem', pd) && (FramesApart(mem, pd) ==> FramesApart(mem', pd))
            && forall va :: IsUser(va) ==> MapsTo(mem', pd, va) == if PgRoundDown(va) == upage then None
                 else MapsTo(mem, pd, va)
  {
    hide DirOk, Slot, PdNo, PtNo, IsUser, PdeGetPt, UserIdx, Idx, OneWord, Untouched, PgRoundDown, PgOfs, Present,
      PteGetPage, Writable, FramesApart, Owned;
    hide MapsTo;
    var pt, w := Table(mem, pd, PdNo(upage)), NotPresent(e);
    var mem' := mem[Addr(pt, PtNo(upage)) := w];
    Write(mem, pt, PtNo(upage), w);
    Numbers(upage);
    SetEntry(mem, mem', pd, PdNo(upage), PtNo(upage), w);
    SameMap(mem, pd);
    OnePageChanged(mem, mem, mem', pd, upage, w);
    ClearPresent(e);
    if FramesApart(mem, pd) { MapApart(mem, mem', pd, PdNo(upage), PtNo(upage), w); }
  }

  lemma SameMap(mem: map<Addr, Word>, pd: Word)
    ensures SameTranslation(mem, mem, pd)
  {
    hide Translate;
  }

  lemma AlreadyClear(mem: map<Addr, Word>, pd: Word, upage: Word)
    requires IsUser(upage) && PgOfs(upage) == 0 && MapsTo(mem, pd, upage) == None
    ensures forall va :: IsUser(va) ==> MapsTo(mem, pd, va) == if PgRoundDown(va) == upage then None
      else MapsTo(mem, pd, va)
  {
    hide PgOfs, PdNo, PtNo, PgRoundDown, IsUser, Translate;
    Aligned(upage);
    forall va | IsUser(va) && PgRoundDown(va) == upage ensures MapsTo(mem, pd, va) == None { SamePage(va, upage); }
  }

  // ----- pagedir_destroy -----

  predicate Before(a: Word, i: Word) { a < i }

  lemma BeforeNext(i: Word)
    requires i < ENTRIES
    ensures forall a :: Before(a, i + 1) <==> Before(a, i) || a == i
  {
    hide Before;
    forall a ensures Before(a, i + 1) <==> Before(a, i) || a == i { BeforeNextAt(a, i); }
  }

  lemma BeforeNextAt(a: Word, i: Word)
    requires i < ENTRIES
    ensures Before(a, i + 1) <==> Before(a, i) || a == i
  {}

  lemma NoneBefore(a: Word)
    ensures !Before(a, 0)
  {}

  /** Page x is the frame of one of the first n entries of the table on page pt. */
  ghost predicate FrameIn(mem: map<Addr, Word>, pt: Word, n: Word, x: Word) {
    exists j :: Before(j, n) && Present(Slot(mem, pt, j)) && PteGetPage(Slot(mem, pt, j)) == x
  }

  /** Page x is a page table of the first n directory entries, or a frame mapped through one. */
  ghost predicate Owned(mem: map<Addr, Word>, pd: Word, n: Word, x: Word) {
    exists a :: Before(a, n) && Slot(mem, pd, a) != 0 &&
      (x == Table(mem, pd, a) || FrameIn(mem, Table(mem, pd, a), ENTRIES, x))
  }

  lemma FrameNext(mem: map<Addr, Word>, pt: Word, n: Word, x: Word)
    requires n < ENTRIES
    ensures FrameIn(mem, pt, n + 1, x) <==>
      FrameIn(mem, pt, n, x) || (Present(Slot(mem, pt, n)) && PteGetPage(Slot(mem, pt, n)) == x)
  {
    hide Before, Present, PteGetPage, Slot;
    BeforeNext(n);
  }

  lemma OwnedNext(mem: map<Addr, Word>, pd: Word, n: Word, x: Word)
    requires n < ENTRIES
    ensures Owned(mem, pd, n + 1, x) <==>
      Owned(mem, pd, n, x) || (Slot(mem, pd, n) != 0 &&
        (x == Table(mem, pd, n) || FrameIn(mem, Table(mem, pd, n), ENTRIES, x)))
  {
    hide Before, Present, PteGetPage, Slot, Table, FrameIn;
    BeforeNext(n);
  }

  /** A page handed to palloc_free_page. */
  datatype Page = Page(addr: Word)

  /** The present entries of a table have different frames. */
  ghost predicate TableApart(mem: map<Addr, Word>, pt: Word) {
    forall j, k :: Idx(j) && Idx(k) && j != k && Present(Slot(mem, pt, j)) && Present(Slot(mem, pt, k)) ==>
      PteGetPage(Slot(mem, pt, j)) != PteGetPage(Slot(mem, pt, k))
  }

  predicate Used(mem: map<Addr, Word>, pd: Word, a: Word) { UserIdx(a) && Slot(mem, pd, a) != 0 }

  /** No frame is mapped twice, and no frame is a page table or the directory. */
  ghost predicate FramesApart(mem: map<Addr, Word>, pd: Word) {
    && (forall a :: Used(mem, pd, a) ==>
         TableApart(mem, Table(mem, pd, a)) && !FrameIn(mem, Table(mem, pd, a), ENTRIES, pd))
    && (forall a, b :: Used(mem, pd, a) && Used(mem, pd, b) ==>
         !FrameIn(mem, Table(mem, pd, a), ENTRIES, Table(mem, pd, b)))
    && (forall a, b, x ::
          Used(mem, pd, a) && Used(mem, pd, b) && a != b && FrameIn(mem, Table(mem, pd, a), ENTRIES, x) ==>
          !FrameIn(mem, Table(mem, pd, b), ENTRIES, x))
  }

  /** No frame is a page table or the directory. */
  ghost predicate TablesApart(mem: map<Addr, Word>, pd: Word) {
    && (forall a :: Used(mem, pd, a) ==> !FrameIn(mem, Table(mem, pd, a), ENTRIES, pd))
    && (forall a, b :: Used(mem, pd, a) && Used(mem, pd, b) ==>
         !FrameIn(mem, Table(mem, pd, a), ENTRIES, Table(mem, pd, b)))
  }

  lemma AppendDistinct(s: seq<Page>, x: Page)
    requires Once(s) && x !in s
    ensures Once(s + [x])
  {}

  lemma ConcatDistinct(s: seq<Page>, t: seq<Page>)
    requires Once(s) && Once(t) && forall x :: x in s ==> x !in t
    ensures Once(s + t)
  {
    forall i, j | 0 <= i < j < |s + t| ensures (s + t)[i] != (s + t)[j] {
      if i < |s| <= j { assert s[i] in s && t[j - |s|] in t; }
    }
  }

  /** What FreeFrames has done after n entries. */
  ghost predicate FramesFreed(mem: map<Addr, Word>, pt: Word, n: Word, freed: seq<Page>) {
    (forall x :: Page(x) in freed <==> FrameIn(mem, pt, n, x)) && (TableApart(mem, pt) ==> Once(freed))
  }

  lemma NoFrames(mem: map<Addr, Word>, pt: Word, freed: seq<Page>)
    requires freed == []
    ensures FramesFreed(mem, pt, 0, freed)
  {
    hide Present, PteGetPage, Slot, Before, TableApart;
    forall a ensures !Before(a, 0) { NoneBefore(a); }
  }

  lemma FreeFrameFacts(mem: map<Addr, Word>, pt: Word, j: Word, freed: seq<Page>)
    requires j < ENTRIES && FramesFreed(mem, pt, j, freed)
    ensures FramesFreed(mem, pt, j + 1, if Present(Slot(mem, pt, j)) then freed + [Page(PteGetPage(Slot(mem, pt, j)))]
      else freed)
  {
    hide Present, PteGetPage, Slot, Once, TableApart, FrameIn;
    var freed' := if Present(Slot(mem, pt, j)) then freed + [Page(PteGetPage(Slot(mem, pt, j)))] else freed;
    forall x ensures Page(x) in freed' <==> FrameIn(mem, pt, j + 1, x) { FrameNext(mem, pt, j, x); }
    if TableApart(mem, pt) && Present(Slot(mem, pt, j)) {
      NotBefore(mem, pt, j);
      AppendDistinct(freed, Page(PteGetPage(Slot(mem, pt, j))));
    }
  }

  lemma NotBefore(mem: map<Addr, Word>, pt: Word, j: Word)
    requires j < ENTRIES && TableApart(mem, pt) && Present(Slot(mem, pt, j))
    ensures !FrameIn(mem, pt, j, PteGetPage(Slot(mem, pt, j)))
  {
    hide Present, PteGetPage, Slot;
    forall k | Before(k, j) ensures Idx(k) && k != j {}
    assert Idx(j);
  }

  /** What pagedir_destroy has done after n directory entries. */
  ghost predicate TablesFreed(mem: map<Addr, Word>, pd: Word, n: Word, freed: seq<Page>) {
    (forall x :: Page(x) in freed <==> Owned(mem, pd, n, x)) && (FramesApart(mem, pd) ==> Once(freed))
  }

  lemma NoneOwned(mem: map<Addr, Word>, pd: Word, freed: seq<Page>)
    requires freed == []
    ensures TablesFreed(mem, pd, 0, freed)
  {
    hide Slot, Before, Table, FrameIn, FramesApart;
    forall a ensures !Before(a, 0) { NoneBefore(a); }
  }

  lemma PdePresent(mem: map<Addr, Word>, pd: Word, i: Word)
    requires DirOk(mem, pd) && i < USER_PDES
    ensures Present(Slot(mem, pd, i)) <==> Slot(mem, pd, i) != 0
  {
    hide Present, Slot, PdeGetPt, DirOk, KernelPage;
    ZeroAbsent();
    DirAt(mem, pd, i);
  }

  lemma SkipFacts(mem: map<Addr, Word>, pd: Word, i: Word, freed: seq<Page>)
    requires i < USER_PDES && Slot(mem, pd, i) == 0 && TablesFreed(mem, pd, i, freed)
    ensures TablesFreed(mem, pd, i + 1, freed)
  {
    hide Slot, Owned, Table, FrameIn, FramesApart, Once;
    forall x ensures Page(x) in freed <==> Owned(mem, pd, i + 1, x) { OwnedNext(mem, pd, i, x); }
  }

  lemma FreeTableFacts(mem: map<Addr, Word>, pd: Word, i: Word, freed: seq<Page>, frames: seq<Page>)
    requires i < USER_PDES && DirOk(mem, pd) && Slot(mem, pd, i) != 0 && TablesFreed(mem, pd, i, freed)
    requires FramesFreed(mem, Table(mem, pd, i), ENTRIES, frames)
    ensures TablesFreed(mem, pd, i + 1, freed + frames + [Page(Table(mem, pd, i))])
  {
    hide Slot, Owned, Table, FrameIn, DirOk, FramesApart, Once, TableApart;
    var pt := Table(mem, pd, i);
    forall x ensures Page(x) in freed + frames + [Page(pt)] <==> Owned(mem, pd, i + 1, x) { OwnedNext(mem, pd, i, x); }
    if FramesApart(mem, pd) {
      ApartHere(mem, pd, i);
      forall x | x in freed ensures x !in frames && x != Page(pt) {
        assert x == Page(x.addr);
        ApartBefore(mem, pd, i, x.addr);
      }
      ConcatDistinct(freed, frames);
      AppendDistinct(freed + frames, Page(pt));
    }
  }

  lemma ApartHere(mem: map<Addr, Word>, pd: Word, i: Word)
    requires i < USER_PDES && Slot(mem, pd, i) != 0 && FramesApart(mem, pd)
    ensures TableApart(mem, Table(mem, pd, i)) && !FrameIn(mem, Table(mem, pd, i), ENTRIES, Table(mem, pd, i))
  {
    hide Slot, Table, FrameIn, TableApart;
    assert Used(mem, pd, i);
  }

  /** What earlier entries own is neither this table nor one of its frames. */
  lemma ApartBefore(mem: map<Addr, Word>, pd: Word, i: Word, x: Word)
    requires i < USER_PDES && DirOk(mem, pd) && Slot(mem, pd, i) != 0 && FramesApart(mem, pd) && Owned(mem, pd, i, x)
    ensures x != Table(mem, pd, i) && !FrameIn(mem, Table(mem, pd, i), ENTRIES, x)
  {
    hide Slot, Table, FrameIn, TableApart, TableOk, DirOk;
    var a :| Before(a, i) && Slot(mem, pd, a) != 0 &&
      (x == Table(mem, pd, a) || FrameIn(mem, Table(mem, pd, a), ENTRIES, x));
    assert Used(mem, pd, i) && Used(mem, pd, a) && a != i;
    DirAt(mem, pd, i);
  }

  lemma DirectoryLast(mem: map<Addr, Word>, pd: Word, freed: seq<Page>)
    requires DirOk(mem, pd) && TablesFreed(mem, pd, USER_PDES, freed)
    ensures forall x :: Page(x) in freed + [Page(pd)] <==> x == pd || Owned(mem, pd, USER_PDES, x)
    ensures FramesApart(mem, pd) ==> Once(freed + [Page(pd)])
  {
    hide Slot, Table, DirOk, Once, Owned, FramesApart, TablesApart;
    if FramesApart(mem, pd) {
      ApartTables(mem, pd);
      NotOwned(mem, pd);
      AppendDistinct(freed, Page(pd));
    }
  }

  lemma NotOwned(mem: map<Addr, Word>, pd: Word)
    requires DirOk(mem, pd) && TablesApart(mem, pd)
    ensures !Owned(mem, pd, USER_PDES, pd)
  {
    hide Slot, Table, FrameIn, TableApart, DirOk;
    forall a | Before(a, USER_PDES) && Slot(mem, pd, a) != 0
      ensures Table(mem, pd, a) != pd && !FrameIn(mem, Table(mem, pd, a), ENTRIES, pd) {
      assert Used(mem, pd, a);
      DirAt(mem, pd, a);
    }
  }

  // ----- freed pages are overwritten -----

  /** What palloc_free_page leaves in every word of the page. */
  const FREED_WORD: Word := 0xcccc_cccc

  /** The first n words of the page are overwritten, nothing else. */
  ghost predicate Filled(mem: map<Addr, Word>, mem': map<Addr, Word>, page: Word, n: Word) {
    forall p, k :: Slot(mem', p, k) == if p == page && Before(k, n) then FREED_WORD else Slot(mem, p, k)
  }

  /** The freed pages are overwritten, nothing else. */
  ghost predicate Overwritten(mem: map<Addr, Word>, mem': map<Addr, Word>, freed: seq<Page>) {
    forall p, k :: Slot(mem', p, k) == if Page(p) in freed && Before(k, ENTRIES) then FREED_WORD else Slot(mem, p, k)
  }

  lemma FillNone(mem: map<Addr, Word>, page: Word)
    ensures Filled(mem, mem, page, 0)
  {
    hide Slot, Before;
    forall k ensures !Before(k, 0) { NoneBefore(k); }
  }

  lemma FillNext(mem0: map<Addr, Word>, mem: map<Addr, Word>, page: Word, j: Word)
    requires j < ENTRIES && Filled(mem0, mem, page, j)
    ensures Filled(mem0, mem[Addr(page, j) := FREED_WORD], page, j + 1)
  {
    hide Slot, Before;
    Write(mem, page, j, FREED_WORD);
    BeforeNext(j);
  }

  lemma OverwriteNone(mem: map<Addr, Word>)
    ensures Overwritten(mem, mem, [])
  {}

  lemma OverwriteOne(mem0: map<Addr, Word>, mem1: map<Addr, Word>, mem2: map<Addr, Word>, freed: seq<Page>, x: Word)
    requires Overwritten(mem0, mem1, freed) && Filled(mem1, mem2, x, ENTRIES)
    ensures Overwritten(mem0, mem2, freed + [Page(x)])
  {
    hide Slot, Before;
  }

  lemma OverwriteMore(mem0: map<Addr, Word>, mem1: map<Addr, Word>, mem2: map<Addr, Word>, a: seq<Page>, b: seq<Page>)
    requires Overwritten(mem0, mem1, a) && Overwritten(mem1, mem2, b)
    ensures Overwritten(mem0, mem2, a + b)
  {
    hide Slot, Before;
  }

  /** A page that was not freed is as it was. */
  lemma Intact(mem0: map<Addr, Word>, mem: map<Addr, Word>, p: Word, freed: seq<Page>)
    requires Overwritten(mem0, mem, freed) && Page(p) !in freed
    ensures SlotsSame(mem0, mem, p)
  {
    hide Slot, Before;
  }

  lemma FramesMore(mem: map<Addr, Word>, pt: Word, j: Word, x: Word)
    requires j < ENTRIES && FrameIn(mem, pt, j, x)
    ensures FrameIn(mem, pt, ENTRIES, x)
  {
    hide Slot, Present, PteGetPage;
  }

  /** A page table that maps no frame onto itself is intact while its frames are freed. */
  lemma TableIntact(mem0: map<Addr, Word>, mem: map<Addr, Word>, pt: Word, j: Word, freed: seq<Page>)
    requires j < ENTRIES && Overwritten(mem0, mem, freed) && FramesFreed(mem0, pt, j, freed)
    requires !FrameIn(mem0, pt, ENTRIES, pt)
    ensures Slot(mem, pt, j) == Slot(mem0, pt, j)
  {
    hide Slot, FrameIn, TableApart, Overwritten, Once;
    if FrameIn(mem0, pt, j, pt) { FramesMore(mem0, pt, j, pt); }
    Intact(mem0, mem, pt, freed);
  }

  /** The directory and the page table of entry i are intact when their turn comes. */
  lemma EntryIntact(mem0: map<Addr, Word>, mem: map<Addr, Word>, pd: Word, i: Word, freed: seq<Page>)
    requires DirOk(mem0, pd) && TablesApart(mem0, pd) && i < USER_PDES
    requires Overwritten(mem0, mem, freed) && TablesFreed(mem0, pd, i, freed)
    ensures Slot(mem, pd, i) == Slot(mem0, pd, i) && (Present(Slot(mem0, pd, i)) <==> Slot(mem0, pd, i) != 0)
    ensures Slot(mem0, pd, i) != 0 ==> SlotsSame(mem0, mem, Table(mem0, pd, i))
  {
    hide Slot, Table, Owned, DirOk, TablesApart, FramesApart, Overwritten, Once, Present, SlotsSame;
    PdePresent(mem0, pd, i);
    if Owned(mem0, pd, i, pd) { OwnedMore(mem0, pd, i, pd); NotOwned(mem0, pd); }
    Intact(mem0, mem, pd, freed);
    assert Slot(mem, pd, i) == Slot(mem0, pd, i) by { SlotAt(mem0, mem, pd, i); }
    if Slot(mem0, pd, i) != 0 {
      var pt := Table(mem0, pd, i);
      if Owned(mem0, pd, i, pt) { TableBefore(mem0, pd, i, pt); }
      Intact(mem0, mem, pt, freed);
    }
  }

  lemma SlotAt(mem0: map<Addr, Word>, mem: map<Addr, Word>, p: Word, i: Word)
    requires SlotsSame(mem0, mem, p)
    ensures Slot(mem, p, i) == Slot(mem0, p, i)
  {}

  lemma OwnedMore(mem: map<Addr, Word>, pd: Word, i: Word, x: Word)
    requires i < USER_PDES && Owned(mem, pd, i, x)
    ensures Owned(mem, pd, USER_PDES, x)
  {
    hide Slot, Table, FrameIn;
  }

  /** One round on intact tables frees what entry i owns. */
  lemma RoundFacts(mem0: map<Addr, Word>, mem: map<Addr, Word>, pd: Word, i: Word, freed: seq<Page>, frames: seq<Page>)
    requires i < USER_PDES && DirOk(mem0, pd) && TablesApart(mem0, pd) && Slot(mem0, pd, i) != 0
    requires TablesFreed(mem0, pd, i, freed) && SlotsSame(mem0, mem, Table(mem0, pd, i))
    requires var pt := Table(mem0, pd, i);
      !FrameIn(mem, pt, ENTRIES, pt) ==> FramesFreed(mem, pt, ENTRIES, frames)
    ensures TablesFreed(mem0, pd, i + 1, freed + frames + [Page(Table(mem0, pd, i))])
  {
    hide Slot, Table, FrameIn, TableApart, DirOk, TablesApart, TablesFreed, SlotsSame, Once;
    SameFrames(mem0, mem, Table(mem0, pd, i));
    TablesHere(mem0, pd, i);
    FreeTableFacts(mem0, pd, i, freed, frames);
  }

  lemma TablesHere(mem: map<Addr, Word>, pd: Word, i: Word)
    requires i < USER_PDES && Slot(mem, pd, i) != 0 && TablesApart(mem, pd)
    ensures !FrameIn(mem, Table(mem, pd, i), ENTRIES, Table(mem, pd, i))
  {
    hide Slot, Table, FrameIn;
    assert Used(mem, pd, i);
  }

  lemma ApartTables(mem: map<Addr, Word>, pd: Word)
    ensures FramesApart(mem, pd) ==> TablesApart(mem, pd)
  {
    hide Slot, Table, FrameIn, TableApart, Used;
  }

  /** What earlier entries own is not this table. */
  lemma TableBefore(mem: map<Addr, Word>, pd: Word, i: Word, x: Word)
    requires i < USER_PDES && DirOk(mem, pd) && Slot(mem, pd, i) != 0 && TablesApart(mem, pd) && Owned(mem, pd, i, x)
    ensures x != Table(mem, pd, i)
  {
    hide Slot, Table, FrameIn, TableOk, DirOk;
    var a :| Before(a, i) && Slot(mem, pd, a) != 0 &&
      (x == Table(mem, pd, a) || FrameIn(mem, Table(mem, pd, a), ENTRIES, x));
    assert Used(mem, pd, i) && Used(mem, pd, a) && a != i;
    DirAt(mem, pd, i);
  }

  /** The frames destroy frees are those the map leads to. */
  lemma FrameIsMapped(mem: map<Addr, Word>, pd: Word, a: Word, x: Word)
    requires Used(mem, pd, a)
    ensures FrameIn(mem, Table(mem, pd, a), ENTRIES, x) <==>
      exists j :: Idx(j) && Translate(mem, pd, a, j).Some? && Translate(mem, pd, a, j).value.frame == x
  {
    hide Slot, Table, Present, PteGetPage, Writable;
    forall j ensures Idx(j) <==> Before(j, ENTRIES) {}
    if FrameIn(mem, Table(mem, pd, a), ENTRIES, x) {
      var j :| Before(j, ENTRIES) && Present(Slot(mem, Table(mem, pd, a), j)) &&
        PteGetPage(Slot(mem, Table(mem, pd, a), j)) == x;
      assert Idx(j) && Translate(mem, pd, a, j).Some?;
    }
  }

  // ----- frames stay apart -----

  ghost predicate SlotsSame(mem: map<Addr, Word>, mem': map<Addr, Word>, pt: Word) {
    forall j :: Slot(mem', pt, j) == Slot(mem, pt, j)
  }

  lemma SameFrames(mem: map<Addr, Word>, mem': map<Addr, Word>, pt: Word)
    requires SlotsSame(mem, mem', pt)
    ensures TableApart(mem', pt) <==> TableApart(mem, pt)
    ensures forall x :: FrameIn(mem', pt, ENTRIES, x) <==> FrameIn(mem, pt, ENTRIES, x)
  {
    hide Present, PteGetPage, Slot, Before, Idx;
    if TableApart(mem', pt) {
      forall j, k | Idx(j) && Idx(k) && j != k && Present(Slot(mem, pt, j)) && Present(Slot(mem, pt, k))
        ensures PteGetPage(Slot(mem, pt, j)) != PteGetPage(Slot(mem, pt, k))
      {
        assert Present(Slot(mem', pt, j)) && Present(Slot(mem', pt, k));
      }
    }
    forall x ensures FrameIn(mem', pt, ENTRIES, x) <==> FrameIn(mem, pt, ENTRIES, x) {
      if FrameIn(mem, pt, ENTRIES, x) {
        var j :| Before(j, ENTRIES) && Present(Slot(mem, pt, j)) && PteGetPage(Slot(mem, pt, j)) == x;
        assert Present(Slot(mem', pt, j));
      }
    }
  }

  /** Frames only go, or come to one page table from outside: mem' relates to mem entry by entry. */
  ghost predicate FrameStep(mem: map<Addr, Word>, mem': map<Addr, Word>, pd: Word, i: Word, more: bool, k: Word) {
    && (forall a :: UserIdx(a) ==> Slot(mem', pd, a) == Slot(mem, pd, a))
    && (forall a, x :: Used(mem, pd, a) && FrameIn(mem', Table(mem, pd, a), ENTRIES, x) ==>
         FrameIn(mem, Table(mem, pd, a), ENTRIES, x) || (a == i && more && k == x))
    && (forall a :: Used(mem, pd, a) ==> TableApart(mem', Table(mem, pd, a)))
  }

  lemma NotOwnedFacts(mem: map<Addr, Word>, pd: Word, k: Word)
    requires !Owned(mem, pd, USER_PDES, k)
    ensures forall a :: Used(mem, pd, a) ==> Table(mem, pd, a) != k && !FrameIn(mem, Table(mem, pd, a), ENTRIES, k)
  {
    hide Slot, Table, FrameIn;
    forall a | Used(mem, pd, a) ensures Table(mem, pd, a) != k && !FrameIn(mem, Table(mem, pd, a), ENTRIES, k) {
      assert Before(a, USER_PDES);
    }
  }

  lemma FrameStepAt(mem: map<Addr, Word>, mem': map<Addr, Word>, pd: Word, i: Word, more: bool, k: Word, a: Word,
                    x: Word)
    requires FrameStep(mem, mem', pd, i, more, k) && Used(mem', pd, a)
    ensures Used(mem, pd, a) && Table(mem', pd, a) == Table(mem, pd, a) && TableApart(mem', Table(mem', pd, a))
    ensures FrameIn(mem', Table(mem', pd, a), ENTRIES, x) ==>
      FrameIn(mem, Table(mem, pd, a), ENTRIES, x) || (a == i && more && k == x)
  {
    hide Slot, FrameIn, TableApart, PdeGetPt, UserIdx;
    assert Slot(mem', pd, a) == Slot(mem, pd, a);
    assert Used(mem, pd, a);
  }

  lemma StepApart(mem: map<Addr, Word>, mem': map<Addr, Word>, pd: Word, i: Word, more: bool, k: Word)
    requires FramesApart(mem, pd) && FrameStep(mem, mem', pd, i, more, k) &&
      (more ==> k != pd && !Owned(mem, pd, USER_PDES, k))
    ensures FramesApart(mem', pd)
  {
    hide Slot, FrameIn, TableApart, Table, Used, Owned, FrameStep;
    if more { NotOwnedFacts(mem, pd, k); }
    forall a | Used(mem', pd, a) ensures TableApart(mem', Table(mem', pd, a)) &&
      !FrameIn(mem', Table(mem', pd, a), ENTRIES, pd) {
      FrameStepAt(mem, mem', pd, i, more, k, a, pd);
    }
    forall a, b | Used(mem', pd, a) && Used(mem', pd, b)
      ensures !FrameIn(mem', Table(mem', pd, a), ENTRIES, Table(mem', pd, b)) {
      FrameStepAt(mem, mem', pd, i, more, k, a, Table(mem', pd, b));
      FrameStepAt(mem, mem', pd, i, more, k, b, pd);
    }
    forall a, b, x | Used(mem', pd, a) && Used(mem', pd, b) && a != b && FrameIn(mem', Table(mem', pd, a), ENTRIES, x)
      ensures !FrameIn(mem', Table(mem', pd, b), ENTRIES, x)
    {
      FrameStepAt(mem, mem', pd, i, more, k, a, x);
      FrameStepAt(mem, mem', pd, i, more, k, b, x);
    }
  }

  /** Clearing an entry, or filling an absent one, changes one table's frames by at most one. */
  lemma EntryStep(mem: map<Addr, Word>, mem': map<Addr, Word>, pd: Word, i: Word, j: Word, w: Word)
    requires DirOk(mem, pd) && FramesApart(mem, pd) && Used(mem, pd, i) && Idx(j) &&
      OneWord(mem, mem', Table(mem, pd, i), j, w)
    requires Present(w) ==> !FrameIn(mem, Table(mem, pd, i), ENTRIES, PteGetPage(w))
    ensures FrameStep(mem, mem', pd, i, Present(w), PteGetPage(w))
  {
    hide Present, PteGetPage, Slot, PdeGetPt, DirOk, FrameIn, TableApart;
    var more, k := Present(w), PteGetPage(w);
    DirSlotsKept(mem, mem', pd, i, j, w);
    forall a | Used(mem, pd, a) ensures TableApart(mem', Table(mem, pd, a))
      && forall x :: FrameIn(mem', Table(mem, pd, a), ENTRIES, x) ==>
           FrameIn(mem, Table(mem, pd, a), ENTRIES, x) || (a == i && more && k == x)
    {
      if a == i {
        OneEntry(mem, mem', Table(mem, pd, i), j, w);
      } else {
        DirAt(mem, pd, i);
        SameFrames(mem, mem', Table(mem, pd, a));
      }
    }
  }

  lemma OneEntry(mem: map<Addr, Word>, mem': map<Addr, Word>, pt: Word, j: Word, w: Word)
    requires TableApart(mem, pt) && Idx(j) && OneWord(mem, mem', pt, j, w) &&
      (Present(w) ==> !FrameIn(mem, pt, ENTRIES, PteGetPage(w)))
    ensures TableApart(mem', pt)
    ensures forall x :: FrameIn(mem', pt, ENTRIES, x) ==>
      FrameIn(mem, pt, ENTRIES, x) || (Present(w) && PteGetPage(w) == x)
  {
    hide Present, PteGetPage, Slot;
    forall x | FrameIn(mem', pt, ENTRIES, x)
      ensures FrameIn(mem, pt, ENTRIES, x) || (Present(w) && PteGetPage(w) == x) {
      var b :| Before(b, ENTRIES) && Present(Slot(mem', pt, b)) && PteGetPage(Slot(mem', pt, b)) == x;
      if b != j { assert Present(Slot(mem, pt, b)); }
    }
    forall b | Idx(b) && b != j && Present(Slot(mem, pt, b)) && Present(w)
      ensures PteGetPage(Slot(mem, pt, b)) != PteGetPage(w) {
      assert Before(b, ENTRIES);
    }
  }

  /** A page table fresh from palloc brings no frames. */
  lemma NewTableApart(mem: map<Addr, Word>, mem': map<Addr, Word>, pd: Word, i: Word, page: Word)
    requires DirOk(mem, pd) && UserIdx(i) && Slot(mem, pd, i) == 0 && Fresh(mem, pd, page) &&
      OneWord(mem, mem', pd, i, PdeCreate(page))
    requires FramesApart(mem, pd) && !Owned(mem, pd, USER_PDES, page)
    ensures FramesApart(mem', pd)
    ensures forall x :: Owned(mem', pd, USER_PDES, x) ==> Owned(mem, pd, USER_PDES, x) || x == page
  {
    hide Present, PteGetPage, Slot, PdeGetPt, PdeCreate, DirOk, FrameIn, TableApart, KernelPage, UserIdx;
    NotOwnedFacts(mem, pd, page);
    forall a | Used(mem', pd, a) ensures if a == i then Table(mem', pd, a) == page
      else Used(mem, pd, a) && Table(mem', pd, a) == Table(mem, pd, a) {
      NewTableAt(mem, mem', pd, i, page, a);
    }
    forall a | Used(mem', pd, a) ensures TableApart(mem', Table(mem', pd, a))
      && forall x :: FrameIn(mem', Table(mem', pd, a), ENTRIES, x) <==>
           a != i && FrameIn(mem, Table(mem, pd, a), ENTRIES, x)
    {
      NewTableFrames(mem, mem', pd, i, page, a);
    }
    forall x | Owned(mem', pd, USER_PDES, x)
      ensures Owned(mem, pd, USER_PDES, x) || x == page
    {
      OwnedUsed(mem', pd, x);
      UsedOwned(mem, pd, x);
    }
  }

  lemma OwnedUsed(mem: map<Addr, Word>, pd: Word, x: Word)
    requires Owned(mem, pd, USER_PDES, x)
    ensures exists a :: Used(mem, pd, a) && (x == Table(mem, pd, a) || FrameIn(mem, Table(mem, pd, a), ENTRIES, x))
  {
    hide Slot, Table, FrameIn;
    var a :| Before(a, USER_PDES) && Slot(mem, pd, a) != 0 &&
      (x == Table(mem, pd, a) || FrameIn(mem, Table(mem, pd, a), ENTRIES, x));
    assert Used(mem, pd, a);
  }

  lemma UsedOwned(mem: map<Addr, Word>, pd: Word, x: Word)
    ensures forall a :: Used(mem, pd, a) && (x == Table(mem, pd, a) || FrameIn(mem, Table(mem, pd, a), ENTRIES, x)) ==>
      Owned(mem, pd, USER_PDES, x)
  {
    hide Slot, Table, FrameIn;
    forall a | Used(mem, pd, a) && (x == Table(mem, pd, a) || FrameIn(mem, Table(mem, pd, a), ENTRIES, x))
      ensures Owned(mem, pd, USER_PDES, x) {
      assert Before(a, USER_PDES);
    }
  }

  lemma NewTableAt(mem: map<Addr, Word>, mem': map<Addr, Word>, pd: Word, i: Word, page: Word, a: Word)
    requires UserIdx(i) && Fresh(mem, pd, page) && OneWord(mem, mem', pd, i, PdeCreate(page)) && Used(mem', pd, a)
    ensures if a == i then Table(mem', pd, a) == page else Used(mem, pd, a) && Table(mem', pd, a) == Table(mem, pd, a)
  {
    hide Slot, PdeGetPt, PdeCreate, Present, PgOfs;
    PdeRoundTrip(page);
  }

  lemma NewTableFrames(mem: map<Addr, Word>, mem': map<Addr, Word>, pd: Word, i: Word, page: Word, a: Word)
    requires DirOk(mem, pd) && FramesApart(mem, pd) && UserIdx(i) && Slot(mem, pd, i) == 0 && Fresh(mem, pd, page)
    requires OneWord(mem, mem', pd, i, PdeCreate(page)) && Used(mem', pd, a)
    ensures TableApart(mem', Table(mem', pd, a))
    ensures forall x :: FrameIn(mem', Table(mem', pd, a), ENTRIES, x) <==>
      a != i && FrameIn(mem, Table(mem, pd, a), ENTRIES, x)
  {
    hide Present, PteGetPage, Slot, PdeGetPt, PdeCreate, DirOk, KernelPage, FrameIn, TableApart;
    NewTableAt(mem, mem', pd, i, page, a);
    if a == i {
      EmptyTable(mem', page);
    } else {
      DirAt(mem, pd, a);
      SameFrames(mem, mem', Table(mem, pd, a));
    }
  }

  lemma EmptyTable(mem: map<Addr, Word>, pt: Word)
    requires forall j :: Idx(j) ==> Slot(mem, pt, j) == 0
    ensures TableApart(mem, pt) && forall x :: !FrameIn(mem, pt, ENTRIES, x)
  {
    hide Present, PteGetPage, Slot;
    ZeroAbsent();
    forall j ensures Idx(j) <==> Before(j, ENTRIES) {}
  }

  /** The page, if there is one, is not in use by the directory. */
  ghost predicate NewTo(mem: map<Addr, Word>, pd: Word, page: Option<Word>) {
    page.Some? ==> !Owned(mem, pd, USER_PDES, page.value)
  }

  lemma EmptyApart(mem: map<Addr, Word>, pd: Word)
    requires forall i :: UserIdx(i) ==> Slot(mem, pd, i) == 0
    ensures FramesApart(mem, pd)
  {
    hide Slot, UserIdx, FrameIn, TableApart, Table;
    forall a ensures !Used(mem, pd, a) {}
  }

  /** Mapping a frame the directory does not use, or unmapping one, keeps the frames apart. */
  lemma MapApart(mem: map<Addr, Word>, mem': map<Addr, Word>, pd: Word, i: Word, j: Word, w: Word)
    requires DirOk(mem, pd) && FramesApart(mem, pd) && UserIdx(i) && Slot(mem, pd, i) != 0 && Idx(j) &&
      OneWord(mem, mem', Table(mem, pd, i), j, w)
    requires Present(w) ==> PteGetPage(w) != pd && !Owned(mem, pd, USER_PDES, PteGetPage(w))
    ensures FramesApart(mem', pd)
  {
    hide Present, PteGetPage, Slot, PdeGetPt, DirOk, FrameIn, TableApart, FramesApart, Owned;
    assert Used(mem, pd, i);
    if Present(w) { NotOwnedFacts(mem, pd, PteGetPage(w)); }
    EntryStep(mem, mem', pd, i, j, w);
    StepApart(mem, mem', pd, i, Present(w), PteGetPage(w));
  }
}
