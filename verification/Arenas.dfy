/** Counting subsets. */
module Sets {
  lemma Member<T>(s: set<T>) returns (x: T)
    requires |s| > 0
    ensures x in s
  {
    x :| x in s;
  }

  lemma SubsetFull<T>(s: set<T>, t: set<T>)
    requires s <= t && |s| == |t|
    ensures s == t
  {
    if s != t {
      var a :| a in t && a !in s;
      SubsetCount(s, t - {a});
    }
  }

  lemma {:induction false} SubsetCount<T>(s: set<T>, t: set<T>)
    requires s <= t
    ensures |s| <= |t|
  {
    if s != {} {
      var a :| a in s;
      SubsetCount(s - {a}, t - {a});
    }
  }
}

/**
 * The layout behind pintos/src/threads/malloc.c, on values: which addresses
 * are blocks of which arena, and what the allocator's tables must say.
 * Addresses count bytes from the base of the kernel pool.
 */
module Arenas {
  import Sets
  import opened Seqs

  const PAGE_SIZE := 4096
  const HEADER := 12
  const DESC_CNT := 7
  /** The first request size whose page count wraps around to a smaller block. */
  const TOO_BIG := 0x1_0000_0000 - 11

  /** The header at the start of an arena's first page. */
  datatype Arena = Small(desc: int, freeCnt: int) | Big(pageCnt: int)

  function BlockSize(d: int): (size: int)
    ensures 16 <= size <= 1024
  {
    match d case 0 => 16 case 1 => 32 case 2 => 64 case 3 => 128 case 4 => 256 case 5 => 512 case _ => 1024
  }

  function BlocksPerArena(d: int): (cnt: int)
    ensures 3 <= cnt <= 255
  {
    match d case 0 => 255 case 1 => 127 case 2 => 63 case 3 => 31 case 4 => 15 case 5 => 7 case _ => 3
  }

  function Page(a: int): int { a / PAGE_SIZE }

  function Offset(a: int): int { a % PAGE_SIZE }

  /** The address of block i of the arena on page p. */
  function Slot(d: int, p: int, i: int): int { p * PAGE_SIZE + HEADER + i * BlockSize(d) }

  /** a is aligned like a block of an arena with descriptor d, and ends within its page. */
  predicate Aligned(d: int, a: int) {
    HEADER <= Offset(a) <= PAGE_SIZE - BlockSize(d) && (Offset(a) - HEADER) % BlockSize(d) == 0
  }

  lemma SlotAligned(d: int, p: int, i: int)
    requires 0 <= i < BlocksPerArena(d)
    ensures Page(Slot(d, p, i)) == p && Aligned(d, Slot(d, p, i))
  {
    SlotFits(d, i);
    var o := HEADER + i * BlockSize(d);
    PageOf(p, o);
    assert (o - HEADER) % BlockSize(d) == 0 by { MultipleOf(i, d); }
  }

  lemma SlotFits(d: int, i: int)
    requires 0 <= i < BlocksPerArena(d)
    ensures 0 <= i * BlockSize(d) && HEADER + i * BlockSize(d) + BlockSize(d) <= PAGE_SIZE
  {}

  lemma MultipleOf(i: int, d: int)
    ensures (i * BlockSize(d)) % BlockSize(d) == 0
  {}

  lemma PageOf(p: int, o: int)
    requires 0 <= o < PAGE_SIZE
    ensures Page(p * PAGE_SIZE + o) == p && Offset(p * PAGE_SIZE + o) == o
  {}

  lemma Slots(d: int, a: int) returns (i: int)
    requires Aligned(d, a)
    ensures 0 <= i < BlocksPerArena(d) && a == Slot(d, Page(a), i)
  {
    i := (Offset(a) - HEADER) / BlockSize(d);
  }

  lemma SlotInjective(d: int, p: int, i: int, j: int)
    requires i < j
    ensures Slot(d, p, i) < Slot(d, p, j)
  {}

  lemma AlignedApart(d: int, a: int, b: int)
    requires Aligned(d, a) && Aligned(d, b) && Page(a) == Page(b) && a < b
    ensures a + BlockSize(d) <= b
  {
    hide Aligned, Page;
    var i := Slots(d, a);
    var j := Slots(d, b);
    if j <= i { assert false by { if j < i { SlotInjective(d, Page(a), j, i); } } }
    Between(i, j, d);
  }

  lemma Between(i: int, j: int, d: int)
    requires i < j
    ensures i * BlockSize(d) + BlockSize(d) <= j * BlockSize(d)
  {}

  /** All block addresses of an arena. */
  function AllBlocks(d: int, p: int): set<int> { set i | 0 <= i < BlocksPerArena(d) :: Slot(d, p, i) }

  /** The first n blocks, in the order a new arena puts them on the free list. */
  function FirstSlots(d: int, p: int, n: int): (s: seq<int>)
    requires 0 <= n
    ensures |s| == n && forall i :: 0 <= i < n ==> s[i] == Slot(d, p, i)
  {
    seq(n, i => Slot(d, p, i))
  }

  lemma BlocksOfPage(d: int, p: int, a: int)
    ensures a in AllBlocks(d, p) <==> Page(a) == p && Aligned(d, a)
  {
    hide Aligned, Page, Slot;
    if a in AllBlocks(d, p) {
      var i :| 0 <= i < BlocksPerArena(d) && a == Slot(d, p, i);
      SlotAligned(d, p, i);
    }
    if Page(a) == p && Aligned(d, a) { var i := Slots(d, a); }
  }

  lemma {:induction false} SlotCount(d: int, p: int, n: int)
    requires 0 <= n
    ensures |set i | 0 <= i < n :: Slot(d, p, i)| == n
  {
    hide Slot;
    var s := set i | 0 <= i < n :: Slot(d, p, i);
    if n > 0 {
      var t := set i | 0 <= i < n - 1 :: Slot(d, p, i);
      SlotCount(d, p, n - 1);
      forall i | 0 <= i < n - 1 ensures Slot(d, p, i) != Slot(d, p, n - 1) { SlotInjective(d, p, i, n - 1); }
      assert s == t + {Slot(d, p, n - 1)};
    }
  }

  // ----- the tables -----

  function Pages(a: Arena): int { if a.Small? then 1 else a.pageCnt }

  /** a is a block, of descriptor d, of some arena. */
  predicate BlockOf(arenas: map<int, Arena>, d: int, a: int) {
    Page(a) in arenas && arenas[Page(a)].Small? && arenas[Page(a)].desc == d && Aligned(d, a)
  }

  predicate IsBlock(arenas: map<int, Arena>, a: int) {
    && Page(a) in arenas
    && if arenas[Page(a)].Small? then Aligned(arenas[Page(a)].desc, a) else Offset(a) == HEADER
  }

  /** `block_size`. */
  function SizeAt(arenas: map<int, Arena>, a: int): int {
    if Page(a) !in arenas then 0
    else if arenas[Page(a)].Small? then BlockSize(arenas[Page(a)].desc)
    else PAGE_SIZE * arenas[Page(a)].pageCnt - Offset(a)
  }

  ghost predicate ArenaOk(n: int, p: int, a: Arena) {
    && 0 <= p && 1 <= Pages(a) && p + Pages(a) <= n
    && (a.Small? ==> 0 <= a.desc < DESC_CNT)
  }

  /** Arenas occupy distinct pages of a pool of n pages. */
  ghost predicate ArenasApart(n: int, arenas: map<int, Arena>) {
    && (forall p :: p in arenas ==> ArenaOk(n, p, arenas[p]))
    && (forall p, q :: p in arenas && q in arenas && p < q ==> p + Pages(arenas[p]) <= q)
  }

  /** The free lists hold exactly the blocks that are not live, each once. */
  ghost predicate FreeOk(arenas: map<int, Arena>, free: seq<seq<int>>, live: map<int, int>) {
    && |free| == DESC_CNT
    && (forall d :: 0 <= d < DESC_CNT ==> Once(free[d]))
    && (forall d, a :: 0 <= d < DESC_CNT ==> (a in free[d] <==> BlockOf(arenas, d, a) && a !in live))
  }

  /** A live block is a block, large enough unless the request was too big to count. */
  ghost predicate LiveOk(arenas: map<int, Arena>, live: map<int, int>) {
    && (forall a :: a in live ==> IsBlock(arenas, a) && (live[a] <= SizeAt(arenas, a) || TOO_BIG <= live[a]))
    && (forall p :: p in arenas && arenas[p].Big? ==> p * PAGE_SIZE + HEADER in live)
  }

  function OnPage(s: seq<int>, p: int): set<int> { set a | a in s && Page(a) == p }

  /** free_cnt is the number of the arena's blocks on the free list. */
  ghost predicate Counted(arenas: map<int, Arena>, free: seq<seq<int>>) {
    |free| == DESC_CNT && forall p :: p in arenas && arenas[p].Small? && 0 <= arenas[p].desc < DESC_CNT ==>
      |OnPage(free[arenas[p].desc], p)| == arenas[p].freeCnt
  }

  ghost predicate Tables(n: int, arenas: map<int, Arena>, free: seq<seq<int>>, live: map<int, int>) {
    ArenasApart(n, arenas) && FreeOk(arenas, free, live) && LiveOk(arenas, live) && Counted(arenas, free)
  }

  /** No arena is kept whose blocks are all free. */
  ghost predicate NoneIdle(arenas: map<int, Arena>) {
    forall p :: p in arenas && arenas[p].Small? ==> arenas[p].freeCnt < BlocksPerArena(arenas[p].desc)
  }

  /** No arena covers page p. */
  ghost predicate Unowned(arenas: map<int, Arena>, p: int, cnt: int) {
    forall q :: q in arenas ==> q + Pages(arenas[q]) <= p || p + cnt <= q
  }

  // ----- what the tables mean -----

  lemma BlockInside(n: int, arenas: map<int, Arena>, a: int)
    requires ArenasApart(n, arenas) && IsBlock(arenas, a)
    ensures PAGE_SIZE * Page(a) + HEADER <= a
    ensures a + SizeAt(arenas, a) <= PAGE_SIZE * (Page(a) + Pages(arenas[Page(a)])) <= PAGE_SIZE * n
  {}

  /** Distinct blocks, live or free, never share a byte. */
  lemma BlocksApart(n: int, arenas: map<int, Arena>, a: int, b: int)
    requires ArenasApart(n, arenas) && IsBlock(arenas, a) && IsBlock(arenas, b) && a < b
    ensures a + SizeAt(arenas, a) <= b
  {
    hide Aligned, Offset;
    BlockInside(n, arenas, a);
    BlockInside(n, arenas, b);
    if Page(a) == Page(b) {
      if arenas[Page(a)].Small? { AlignedApart(arenas[Page(a)].desc, a, b); } else { SameBig(a, b); }
    } else {
      assert Page(a) < Page(b);
    }
  }

  lemma SameBig(a: int, b: int)
    requires Page(a) == Page(b) && Offset(a) == Offset(b)
    ensures a == b
  {}

  /** A block covers no arena header. */
  lemma HeadersApart(n: int, arenas: map<int, Arena>, a: int, p: int)
    requires ArenasApart(n, arenas) && IsBlock(arenas, a) && p in arenas
    ensures PAGE_SIZE * p + HEADER <= a || a + SizeAt(arenas, a) <= PAGE_SIZE * p
  {
    hide Aligned, Offset, SizeAt;
    BlockInside(n, arenas, a);
  }

  /** An arena all of whose blocks are counted free has them all on the free list. */
  lemma AllFree(n: int, arenas: map<int, Arena>, free: seq<seq<int>>, live: map<int, int>, p: int)
    requires Tables(n, arenas, free, live) && p in arenas && arenas[p].Small? &&
      BlocksPerArena(arenas[p].desc) <= arenas[p].freeCnt
    ensures OnPage(free[arenas[p].desc], p) == AllBlocks(arenas[p].desc, p)
    ensures arenas[p].freeCnt == BlocksPerArena(arenas[p].desc)
  {
    hide Aligned, Page, LiveOk, Slot;
    var d := arenas[p].desc;
    var f := OnPage(free[d], p);
    assert 0 <= d < DESC_CNT;
    forall a | a in f ensures a in AllBlocks(d, p) {
      assert a in free[d] && Page(a) == p;
      assert BlockOf(arenas, d, a);
      BlocksOfPage(d, p, a);
    }
    SlotCount(d, p, BlocksPerArena(d));
    Sets.SubsetCount(f, AllBlocks(d, p));
    Sets.SubsetFull(f, AllBlocks(d, p));
  }
}
