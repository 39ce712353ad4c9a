/** Virtual addresses and page table entries (pintos/src/threads/vaddr.h and pte.h). */
module PageTables {
  type Word = bv32

  const PHYS_BASE: Word := 0xc000_0000
  const PTE_P: Word := 0x1
  const PTE_W: Word := 0x2
  const PTE_U: Word := 0x4
  const PTE_ADDR: Word := 0xffff_f000
  /** Directory entries below PHYS_BASE, and entries of a page. */
  const USER_PDES: Word := 768
  const ENTRIES: Word := 1024

  function PgOfs(va: Word): Word { va & 0xfff }

  function PgRoundDown(va: Word): Word { va & 0xffff_f000 }

  function PtNo(va: Word): Word { (va & 0x003f_f000) >> 12 }

  function PdNo(va: Word): Word { va >> 22 }

  predicate IsUser(va: Word) { va < PHYS_BASE }

  /** A page of the kernel's one-to-one mapping. */
  predicate KernelPage(page: Word) { PgOfs(page) == 0 && PHYS_BASE <= page }

  function Ptov(pa: Word): Word { pa + PHYS_BASE }

  function Vtop(va: Word): Word { va - PHYS_BASE }

  function PdeCreate(pt: Word): Word { Vtop(pt) | PTE_U | PTE_P | PTE_W }

  function PdeGetPt(pde: Word): Word { Ptov(pde & PTE_ADDR) }

  function PteCreateUser(page: Word, writable: bool): Word {
    Vtop(page) | PTE_P | (if writable then PTE_W else 0) | PTE_U
  }

  function PteGetPage(pte: Word): Word { Ptov(pte & PTE_ADDR) }

  predicate Present(pte: Word) { pte & PTE_P != 0 }

  predicate Writable(pte: Word) { pte & PTE_W != 0 }

  /** The address of entry i of the table on page pt. */
  function Entry(pt: Word, i: Word): Word { pt + 4 * i }

  lemma PdeRoundTrip(pt: Word)
    requires KernelPage(pt)
    ensures PdeCreate(pt) != 0 && Present(PdeCreate(pt)) && PdeGetPt(PdeCreate(pt)) == pt
  {}

  lemma PteRoundTrip(page: Word, writable: bool)
    requires KernelPage(page)
    ensures var e := PteCreateUser(page, writable); Present(e) && PteGetPage(e) == page && Writable(e) == writable
  {}

  /** Clearing the present bit keeps the rest of the entry. */
  lemma ClearPresent(e: Word)
    ensures !Present(e & !PTE_P) && PteGetPage(e & !PTE_P) == PteGetPage(e) && Writable(e & !PTE_P) == Writable(e)
  {}

  lemma NumbersBound(va: Word)
    ensures PtNo(va) < ENTRIES && (IsUser(va) ==> PdNo(va) < USER_PDES) && PdNo(va) < ENTRIES
  {}

  /** A user page is its pair of indices. */
  lemma SamePage(a: Word, b: Word)
    ensures PgRoundDown(a) == PgRoundDown(b) <==> PdNo(a) == PdNo(b) && PtNo(a) == PtNo(b)
  {
    hide PgRoundDown, PdNo, PtNo;
    Split(a);
    Split(b);
  }

  lemma Split(a: Word)
    ensures PgRoundDown(a) == (PdNo(a) << 22) | (PtNo(a) << 12)
    ensures PdNo(PgRoundDown(a)) == PdNo(a) && PtNo(PgRoundDown(a)) == PtNo(a)
  {}

  /** Entries of different tables, or different entries of a table, have different addresses. */
  lemma EntriesApart(pt: Word, i: Word, pt': Word, i': Word)
    requires PgOfs(pt) == 0 && PgOfs(pt') == 0 && i < ENTRIES && i' < ENTRIES
    ensures Entry(pt, i) == Entry(pt', i') <==> pt == pt' && i == i'
  {}
}
