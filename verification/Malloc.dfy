/**
 * The page allocator's kernel pool (pintos/src/threads/palloc.c) and the block
 * allocator on top of it (pintos/src/threads/malloc.c).  A call is one step:
 * the locks make it so.  Arena headers and free-list links are kept in tables;
 * HeadersApart and BlocksApart say that no live block covers the bytes that
 * hold them in the original.
 */
module Malloc {
  import opened Arenas
  import opened Options
  import opened Bitmaps
  import ArenaSteps
  import opened Seqs

  const WORD := 0x1_0000_0000

  /** DIV_ROUND_UP (size + sizeof *a, PGSIZE) in 32-bit arithmetic. */
  function PageCount(size: int): int { ((size + HEADER) % WORD + PAGE_SIZE - 1) % WORD / PAGE_SIZE }

  /** A big block is large enough exactly when the request is below TOO_BIG. */
  lemma PageCountFits(size: int)
    requires 0 < size < WORD && 1 <= PageCount(size)
    ensures size <= PAGE_SIZE * PageCount(size) - HEADER <==> size < TOO_BIG
  {}

  /** The first size past the end: one page is taken for a request of nearly 4 GB. */
  lemma ShortBlock()
    ensures PageCount(TOO_BIG) == 1 && PAGE_SIZE * PageCount(TOO_BIG) - HEADER < TOO_BIG
    ensures PageCount(TOO_BIG - 1) == 0
  {}

  predicate Covers(arenas: map<int, Arena>, p: int, k: int) { p in arenas && p <= k < p + Pages(arenas[p]) }

  /** Every page of an arena is marked used. */
  ghost predicate Marked(used: seq<bool>, arenas: map<int, Arena>) {
    forall p, k :: Covers(arenas, p, k) ==> 0 <= k < |used| && used[k]
  }

  lemma UnmarkedUnowned(n: int, used: seq<bool>, arenas: map<int, Arena>, p: nat, cnt: nat)
    requires Marked(used, arenas) && ArenasApart(n, arenas) && p + cnt <= |used| && Uniform(used, p, cnt, false)
    ensures 1 <= cnt ==> Unowned(arenas, p, cnt)
  {
    if 1 <= cnt {
      forall q | q in arenas ensures q + Pages(arenas[q]) <= p || p + cnt <= q {
        assert ArenaOk(n, q, arenas[q]);
        var k := if p < q then q else p;
        assert !(Covers(arenas, q, k) && k < p + cnt);
      }
    }
  }

  lemma MarkedAdd(used: seq<bool>, arenas: map<int, Arena>, p: nat, x: Arena)
    requires Marked(used, arenas) && 1 <= Pages(x) && p + Pages(x) <= |used|
    ensures Marked(Filled(used, p, Pages(x), true), arenas[p := x])
  {
    var used' := Filled(used, p, Pages(x), true);
    var arenas' := arenas[p := x];
    forall q, k | Covers(arenas', q, k) ensures 0 <= k < |used'| && used'[k] {
      assert q == p || Covers(arenas, q, k);
    }
  }

  lemma MarkedDrop(n: int, used: seq<bool>, arenas: map<int, Arena>, p: nat)
    requires Marked(used, arenas) && ArenasApart(n, arenas) && p in arenas && 0 <= Pages(arenas[p]) &&
      p + Pages(arenas[p]) <= |used|
    ensures Marked(Filled(used, p, Pages(arenas[p]), false), arenas - {p})
  {
    assert forall q, k :: Covers(arenas - {p}, q, k) ==> Covers(arenas, q, k) && q != p;
  }

  lemma MarkedShape(used: seq<bool>, arenas: map<int, Arena>, arenas': map<int, Arena>)
    requires Marked(used, arenas) && ArenaSteps.SameShape(arenas, arenas')
    ensures Marked(used, arenas')
  {
    assert forall q, k :: Covers(arenas', q, k) ==> Covers(arenas, q, k);
  }

  /** There are no cnt free pages in a row. */
  ghost predicate NoRun(used: seq<bool>, n: nat, cnt: int)
    requires n <= |used|
  {
    cnt <= 0 || forall k :: 0 <= k && k + cnt <= n ==> !Uniform(used, k, cnt, false)
  }

  /** Live blocks keep their sizes. */
  ghost predicate SameSizes(arenas: map<int, Arena>, arenas': map<int, Arena>, live: map<int, int>) {
    forall a :: a in live ==> SizeAt(arenas', a) == SizeAt(arenas, a)
  }

  /** `malloc_init` fills the table of descriptors. */
  method MallocInit() returns (descs: seq<(int, int)>)
    ensures |descs| == DESC_CNT
    ensures forall d :: 0 <= d < DESC_CNT ==> descs[d] == (BlockSize(d), BlocksPerArena(d))
    ensures forall d :: 0 <= d < DESC_CNT ==>
      HEADER + descs[d].1 * descs[d].0 <= PAGE_SIZE < HEADER + (descs[d].1 + 1) * descs[d].0
  {
    descs := [];
    var blockSize := 16;
    while blockSize < PAGE_SIZE / 2
      invariant |descs| <= DESC_CNT && blockSize == (if |descs| < DESC_CNT then BlockSize(|descs|) else PAGE_SIZE / 2)
      invariant forall d :: 0 <= d < |descs| ==> descs[d] == (BlockSize(d), BlocksPerArena(d))
      decreases PAGE_SIZE - blockSize
    {
      descs := descs + [(blockSize, (PAGE_SIZE - HEADER) / blockSize)];
      blockSize := blockSize * 2;
    }
  }

  /** d is the smallest descriptor with blocks of at least size bytes, or DESC_CNT. */
  ghost predicate Smallest(d: int, size: int) {
    0 <= d <= DESC_CNT && (d < DESC_CNT ==> size <= BlockSize(d)) && forall e :: 0 <= e < d ==> BlockSize(e) < size
  }

  method FindDesc(size: int) returns (d: int)
    ensures Smallest(d, size)
  {
    d := 0;
    while d < DESC_CNT && BlockSize(d) < size
      invariant 0 <= d <= DESC_CNT
      invariant forall e :: 0 <= e < d ==> BlockSize(e) < size
    {
      d := d + 1;
    }
  }

  class Heap {
    const usedMap: Bitmap
    const mem: array<bv8>
    var arenas: map<int, Arena>
    var free: seq<seq<int>>
    /** The blocks handed out and not freed, with the sizes asked for. */
    ghost var live: map<int, int>

    ghost predicate Valid()
      reads this, usedMap, usedMap.bits
    {
      && usedMap.Valid() && mem.Length == PAGE_SIZE * usedMap.bitCnt
      && Tables(usedMap.bitCnt, arenas, free, live) && NoneIdle(arenas) && Marked(usedMap.All(), arenas)
    }

    constructor (n: nat)
      ensures Valid() && live == map[] && usedMap.bitCnt == n && fresh(usedMap) && fresh(usedMap.bits) && fresh(mem)
    {
      var b := new Bitmap(n);
      usedMap := b;
      mem := new bv8[PAGE_SIZE * n];
      arenas, free, live := map[], [[], [], [], [], [], [], []], map[];
      new;
      Initially(n, free);
    }

    static lemma Initially(n: int, free: seq<seq<int>>)
      requires free == [[], [], [], [], [], [], []]
      ensures Tables(n, map[], free, map[]) && NoneIdle(map[])
    {
      hide Aligned;
    }

    /** memset */
    method Fill(a: nat, v: bv8, n: nat)
      requires a + n <= mem.Length
      modifies mem
      ensures forall k :: 0 <= k < mem.Length ==> mem[k] == if a <= k < a + n then v else old(mem[k])
    {
      var i := 0;
      while i < n
        invariant 0 <= i <= n
        invariant forall k :: 0 <= k < mem.Length ==> mem[k] == if a <= k < a + i then v else old(mem[k])
      {
        mem[a + i] := v;
        i := i + 1;
      }
    }

    /** memcpy between areas that do not overlap. */
    method Copy(dst: nat, src: nat, n: nat)
      requires dst + n <= mem.Length && src + n <= mem.Length && (dst + n <= src || src + n <= dst)
      modifies mem
      ensures forall k :: 0 <= k < mem.Length ==> mem[k] == if dst <= k < dst + n then old(mem[src + (k - dst)])
        else old(mem[k])
    {
      var i := 0;
      while i < n
        invariant 0 <= i <= n
        invariant forall k :: 0 <= k < mem.Length ==> mem[k] == if dst <= k < dst + i then old(mem[src + (k - dst)])
          else old(mem[k])
      {
        mem[dst + i] := mem[src + i];
        i := i + 1;
      }
    }

    /** The lowest group of cnt free pages, now marked used. */
    method PallocGetMultiple(cnt: nat) returns (r: Option<nat>)
      requires usedMap.Valid()
      modifies usedMap.bits
      ensures r.Some? ==> 0 < cnt && IsFirst(old(usedMap.All()), usedMap.bitCnt, 0, cnt, false, r.value)
      ensures r.Some? ==> usedMap.All() == Filled(old(usedMap.All()), r.value, cnt, true)
      ensures r.None? ==> usedMap.All() == old(usedMap.All())
      ensures r.None? <==> NoRun(old(usedMap.All()), usedMap.bitCnt, cnt)
    {
      if cnt == 0 { return None; }
      r := usedMap.ScanAndFlip(0, cnt, false);
    }

    /** The pages are filled with 0xcc and marked free; the caller must own them. */
    method PallocFreeMultiple(page: nat, cnt: nat)
      requires usedMap.Valid() && mem.Length == PAGE_SIZE * usedMap.bitCnt && page + cnt <= usedMap.bitCnt
      requires Uniform(usedMap.All(), page, cnt, true)
      modifies mem, usedMap.bits
      ensures usedMap.All() == Filled(old(usedMap.All()), page, cnt, false)
      ensures forall k :: 0 <= k < mem.Length ==>
        mem[k] == if PAGE_SIZE * page <= k < PAGE_SIZE * (page + cnt) then 0xcc else old(mem[k])
    {
      Fill(PAGE_SIZE * page, 0xcc, PAGE_SIZE * cnt);
      usedMap.SetMultiple(page, cnt, false);
    }

    // ----- malloc -----

    /** A fresh page becomes an arena: its blocks go, in order, on the empty free list. */
    method NewArena(d: int) returns (ok: bool)
      requires Valid() && 0 <= d < DESC_CNT && |free| == DESC_CNT && free[d] == []
      modifies this`arenas, this`free, usedMap.bits
      ensures !ok ==> arenas == old(arenas) && free == old(free) && usedMap.All() == old(usedMap.All())
      ensures !ok <==> NoRun(old(usedMap.All()), usedMap.bitCnt, 1)
      ensures Tables(usedMap.bitCnt, arenas, free, live) && Marked(usedMap.All(), arenas)
      ensures ok ==>
        |free| == DESC_CNT && free[d] != [] && Ready(arenas, Page(free[d][0])) &&
        SameSizes(old(arenas), arenas, live)
    {
      hide Tables, NoneIdle, Marked, Ready, SameSizes, Page, Slot, FirstSlots, Bitmap.All, NoRun;
      var page := PallocGetMultiple(1);
      if page.None? { return false; }
      var p := page.value;
      ghost var n, used := usedMap.bitCnt, old(usedMap.All());
      NewArenaFacts(n, used, arenas, free, live, d, p);
      arenas := arenas[p := Small(d, BlocksPerArena(d))];
      var i := 0;
      while i < BlocksPerArena(d)
        invariant 0 <= i <= BlocksPerArena(d) && |free| == DESC_CNT
        invariant free == old(free)[d := FirstSlots(d, p, i)]
        modifies this`free
      {
        SlotsStep(d, p, i);
        free := free[d := free[d] + [Slot(d, p, i)]];
        i := i + 1;
      }
      return true;
    }

    /** The first free block of descriptor d becomes live. */
    method TakeBlock(d: int, ghost size: int) returns (b: int)
      requires usedMap.Valid() && mem.Length == PAGE_SIZE * usedMap.bitCnt && Marked(usedMap.All(), arenas)
      requires Tables(usedMap.bitCnt, arenas, free, live)
      requires 0 <= d < DESC_CNT && |free| == DESC_CNT && free[d] != [] && size <= BlockSize(d) &&
        Ready(arenas, Page(free[d][0]))
      modifies this
      ensures Valid() && b !in old(live) && live == old(live)[b := size] && SizeAt(arenas, b) == BlockSize(d)
      ensures SameSizes(old(arenas), arenas, old(live))
    {
      hide Tables, NoneIdle, Marked, Ready, SameSizes, Page, SizeAt, BlockSize, BlockOf;
      TakeFacts(usedMap.bitCnt, usedMap.All(), arenas, free, live, d, size);
      b := free[d][0];
      free := free[d := free[d][1..]];
      var a := Page(b);
      arenas := arenas[a := Small(d, arenas[a].freeCnt - 1)];
      live := live[b := size];
    }

    /** malloc for sizes beyond the largest descriptor. */
    method MallocBig(size: int) returns (r: Option<int>)
      requires Valid() && 0 < size < WORD
      modifies this, usedMap.bits
      ensures Valid()
      ensures r.None? <==> NoRun(old(usedMap.All()), usedMap.bitCnt, PageCount(size))
      ensures r.None? ==>
        arenas == old(arenas) && free == old(free) && live == old(live) && usedMap.All() == old(usedMap.All())
      ensures r.Some? ==>
        r.value !in old(live) && live == old(live)[r.value := size] && SameSizes(old(arenas), arenas, old(live))
      ensures r.Some? ==> (size <= SizeAt(arenas, r.value) <==> size < TOO_BIG)
    {
      hide Tables, NoneIdle, Marked, SameSizes, Page, SizeAt, Bitmap.All, PageCount, NoRun;
      PageCountNat(size);
      var pageCnt := PageCount(size);
      var page := PallocGetMultiple(pageCnt);
      if page.None? { return None; }
      var p := page.value;
      BigFacts(usedMap.bitCnt, old(usedMap.All()), arenas, free, live, p, size);
      arenas := arenas[p := Big(pageCnt)];
      live := live[p * PAGE_SIZE + HEADER := size];
      r := Some(p * PAGE_SIZE + HEADER);
    }

    /** malloc for sizes some descriptor serves. */
    method MallocSmall(d: int, size: int) returns (r: Option<int>)
      requires Valid() && 0 <= d < DESC_CNT && |free| == DESC_CNT && 0 < size <= BlockSize(d)
      modifies this, usedMap.bits
      ensures Valid()
      ensures r.None? <==> old(free[d]) == [] && NoRun(old(usedMap.All()), usedMap.bitCnt, 1)
      ensures r.None? ==>
        arenas == old(arenas) && free == old(free) && live == old(live) && usedMap.All() == old(usedMap.All())
      ensures r.Some? ==>
        r.value !in old(live) && live == old(live)[r.value := size] && SameSizes(old(arenas), arenas, old(live))
      ensures r.Some? ==> SizeAt(arenas, r.value) == BlockSize(d)
    {
      hide Tables, Marked, Page, SizeAt, Bitmap.All, NoRun, BlockSize;
      if free[d] == [] {
        var ok := NewArena(d);
        if !ok { return None; }
      }
      ghost var mid := arenas;
      var b := TakeBlock(d, size);
      SizesTrans(old(arenas), mid, arenas, old(live));
      r := Some(b);
    }

    /**
     * `malloc`: a block of at least size bytes that is live and shares no byte
     * with another, or null, exactly when size is 0 or the pages it needs are
     * not there.  From TOO_BIG on the page count wraps and the block is short.
     */
    method Malloc(size: int) returns (r: Option<int>)
      requires Valid() && 0 <= size < WORD
      modifies this, usedMap.bits
      ensures Valid()
      ensures r.None? <==> NullFor(size, old(free), old(usedMap.All()), usedMap.bitCnt)
      ensures r.None? ==>
        arenas == old(arenas) && free == old(free) && live == old(live) && usedMap.All() == old(usedMap.All())
      ensures r.Some? ==> size > 0 && r.value !in old(live) && live == old(live)[r.value := size]
      ensures r.Some? ==> (size <= SizeAt(arenas, r.value) <==> size < TOO_BIG)
      ensures SameSizes(old(arenas), arenas, old(live))
    {
      hide Tables, Marked, Page, SizeAt, Bitmap.All, NoRun, BlockSize, Smallest, NullFor, PageCount, NoneIdle;
      if size == 0 { NullZero(free, usedMap.All(), usedMap.bitCnt); return None; }
      var d := FindDesc(size);
      TablesParts(usedMap.bitCnt, arenas, free, live);
      NullIs(d, size, free, usedMap.All(), usedMap.bitCnt);
      if d == DESC_CNT {
        r := MallocBig(size);
      } else {
        r := MallocSmall(d, size);
      }
    }

    // ----- free -----

    /** Takes every block of the arena on page p off its free list. */
    method Unlink(d: int, p: int)
      requires 0 <= d < DESC_CNT && |free| == DESC_CNT && Once(free[d])
      requires forall a :: a in free[d] && Page(a) == p ==> Aligned(d, a)
      modifies this`free
      ensures exists t :: ArenaSteps.Purged(old(free[d]), t, p) && free == old(free)[d := t]
    {
      hide Page, Aligned, Slot, FirstSlots, Cleared, Without;
      ClearedStart(free[d], d, p);
      var i := 0;
      while i < BlocksPerArena(d)
        invariant 0 <= i <= BlocksPerArena(d) && |free| == DESC_CNT
        invariant free == old(free)[d := free[d]] && Cleared(old(free[d]), free[d], d, p, i)
      {
        ClearedStep(old(free[d]), free[d], d, p, i);
        free := free[d := Without(free[d], Slot(d, p, i))];
        i := i + 1;
      }
      ClearedEnd(old(free[d]), free[d], d, p);
    }

    /** An arena whose blocks are all free is unlinked and its page given back. */
    method ReleaseArena(p: int)
      requires usedMap.Valid() && mem.Length == PAGE_SIZE * usedMap.bitCnt && Marked(usedMap.All(), arenas)
      requires Tables(usedMap.bitCnt, arenas, free, live) && Ready(arenas, p)
      requires p in arenas && arenas[p].Small? && BlocksPerArena(arenas[p].desc) <= arenas[p].freeCnt
      modifies this`arenas, this`free, mem, usedMap.bits
      ensures Valid() && arenas == old(arenas) - {p} && SameSizes(old(arenas), arenas, live)
      ensures forall a :: a in live ==> Page(a) != p
      ensures Kept(old(mem[..]), mem[..], old(arenas), live)
    {
      hide Tables, Marked, Page, SizeAt, Bitmap.All, SameSizes, Kept, NoneIdle, Ready, ArenaSteps.Purged, IsBlock,
        Aligned, BlocksPerArena;
      ReleaseFacts(usedMap.bitCnt, usedMap.All(), arenas, free, live, p);
      ghost var m, free0, used0 := mem[..], free, usedMap.All();
      Unlink(arenas[p].desc, p);
      ReleaseTables(usedMap.bitCnt, arenas, free0, free, live, p);
      PallocFreeMultiple(p, 1);
      PagesKept(usedMap.bitCnt, arenas, live, m, mem[..], p);
      arenas := arenas - {p};
    }

    method FreeSmall(b: int)
      requires Valid() && b in live && Page(b) in arenas && arenas[Page(b)].Small?
      modifies this, mem, usedMap.bits
      ensures Valid() && live == old(live) - {b} && SameSizes(old(arenas), arenas, live)
      ensures Kept(old(mem[..]), mem[..], arenas, live)
    {
      hide Tables, Marked, Page, SizeAt, Bitmap.All, SameSizes, Kept, NoneIdle, Ready, BlocksPerArena, BlockSize;
      var a := Page(b);
      var d := arenas[a].desc;
      PutFacts(usedMap.bitCnt, usedMap.All(), arenas, free, live, b);
      ghost var m, arenas0 := mem[..], arenas;
      Fill(b, 0xcc, BlockSize(d));
      FillKept(usedMap.bitCnt, arenas0, live, m, mem[..], b);
      free := free[d := [b] + free[d]];
      arenas := arenas[a := Small(d, arenas[a].freeCnt + 1)];
      live := live - {b};
      SizesKept(arenas0, arenas, live, m, mem[..]);
      if arenas[a].freeCnt >= BlocksPerArena(d) {
        ghost var m1, arenas1 := mem[..], arenas;
        ReleaseArena(a);
        KeptTrans(m, m1, mem[..], arenas1, live);
        SizesKept(arenas1, arenas, live, m, mem[..]);
        SizesTrans(arenas0, arenas1, arenas, live);
      } else {
        NoneIdleNow(arenas, a);
      }
    }

    method FreeBig(b: int)
      requires Valid() && b in live && Page(b) in arenas && arenas[Page(b)].Big?
      modifies this, mem, usedMap.bits
      ensures Valid() && live == old(live) - {b} && SameSizes(old(arenas), arenas, live)
      ensures Kept(old(mem[..]), mem[..], arenas, live)
    {
      hide Tables, Marked, Page, SizeAt, Bitmap.All, SameSizes, Kept, NoneIdle;
      var a := Page(b);
      BigFreeFacts(usedMap.bitCnt, usedMap.All(), arenas, free, live, b);
      ghost var m, arenas0 := mem[..], arenas;
      PallocFreeMultiple(a, arenas[a].pageCnt);
      arenas, live := arenas - {a}, live - {b};
      PagesKept(usedMap.bitCnt, arenas0, live, m, mem[..], a);
      SizesKept(arenas0, arenas, live, m, mem[..]);
    }

    /** `free`: a null pointer is ignored; other live blocks keep place, size and bytes. */
    method Free(p: Option<int>)
      requires Valid() && (p.Some? ==> p.value in live)
      modifies this, mem, usedMap.bits
      ensures Valid() && live == (if p.Some? then old(live) - {p.value} else old(live))
      ensures SameSizes(old(arenas), arenas, live) && Kept(old(mem[..]), mem[..], arenas, live)
    {
      hide Tables, Marked, Page, SizeAt, Bitmap.All, NoneIdle;
      if p.Some? {
        LiveHasArena(usedMap.bitCnt, arenas, free, live, p.value);
        if arenas[Page(p.value)].Small? {
          FreeSmall(p.value);
        } else {
          FreeBig(p.value);
        }
      }
    }

    /** Copies what fits of block o into block b and frees o. */
    method MoveBlock(o: int, b: int, newSize: int)
      requires Valid() && o in live && b in live && o != b && 0 < newSize <= SizeAt(arenas, b)
      modifies this, mem, usedMap.bits
      ensures Valid() && live == old(live) - {o} && SameSizes(old(arenas), arenas, live)
      ensures Carried(old(mem[..]), mem[..], o, b, Min(newSize, old(SizeAt(arenas, o))))
      ensures Kept(old(mem[..]), mem[..], arenas, live - {b})
    {
      hide Tables, Marked, Page, SizeAt, Bitmap.All, NoneIdle, Kept, Carried, SameSizes;
      var oldSize := SizeAt(arenas, o);
      var minSize := Min(newSize, oldSize);
      MoveFacts(usedMap.bitCnt, arenas, free, live, o, b);
      ghost var m, arenas0 := mem[..], arenas;
      Copy(b, o, minSize);
      ghost var m1 := mem[..];
      CopyCarried(m, m1, o, b, minSize);
      FillKept(usedMap.bitCnt, arenas, live, m, m1, b);
      Free(Some(o));
      MovedKept(m, m1, mem[..], arenas0, arenas, old(live), live, o, b, minSize);
    }

    /**
     * `realloc`: on success the new block starts with the old one's bytes, as
     * many as fit both, and the old block is no longer live; on failure
     * nothing changes.  Other live blocks keep their bytes.
     */
    method Realloc(oldBlock: Option<int>, newSize: int) returns (r: Option<int>)
      requires Valid() && (oldBlock.Some? ==> oldBlock.value in live) && 0 <= newSize < TOO_BIG
      modifies this, mem, usedMap.bits
      ensures Valid()
      ensures newSize == 0 ==> r.None? && live == (if oldBlock.Some? then old(live) - {oldBlock.value} else old(live))
      ensures newSize > 0 && r.None? ==> live == old(live) && mem[..] == old(mem[..])
      ensures r.Some? ==> r.value !in old(live) && newSize <= SizeAt(arenas, r.value)
      ensures r.Some? ==>
        live == (if oldBlock.Some? then old(live) - {oldBlock.value} else old(live))[r.value := newSize]
      ensures r.Some? && oldBlock.Some? ==> Carried(old(mem[..]), mem[..], oldBlock.value, r.value,
        Min(newSize, old(SizeAt(arenas, oldBlock.value))))
      ensures oldBlock.None? ==> Kept(old(mem[..]), mem[..], arenas, old(live))
      ensures oldBlock.Some? ==> Kept(old(mem[..]), mem[..], arenas, old(live) - {oldBlock.value})
    {
      hide Tables, Marked, Page, SizeAt, Bitmap.All, NoneIdle;
      if newSize == 0 {
        Free(oldBlock);
        return None;
      }
      r := Malloc(newSize);
      if oldBlock.Some? && r.Some? {
        MoveBlock(oldBlock.value, r.value, newSize);
      }
    }
  }

  function Min(a: int, b: int): int { if a < b then a else b }

  /** The n bytes from `from` on are found unchanged at `to`. */
  ghost predicate Carried(m: seq<bv8>, m': seq<bv8>, from: int, to: int, n: int) {
    && 0 <= from && from + n <= |m| && 0 <= to && to + n <= |m'|
    && forall k :: to <= k < to + n ==> m'[k] == m[from + (k - to)]
  }

  lemma CopyCarried(m: seq<bv8>, m': seq<bv8>, o: int, b: int, n: int)
    requires 0 <= n && 0 <= o && o + n <= |m| && 0 <= b && b + n <= |m| && |m'| == |m|
    requires forall k :: 0 <= k < |m| ==> m'[k] == if b <= k < b + n then m[o + (k - b)] else m[k]
    ensures Carried(m, m', o, b, n)
  {}

  lemma MoveFacts(n: int, arenas: map<int, Arena>, free: seq<seq<int>>, live: map<int, int>, o: int, b: int)
    requires Tables(n, arenas, free, live) && o in live && b in live && o != b
    ensures ArenasApart(n, arenas) && forall a :: a in live ==> IsBlock(arenas, a)
    ensures o + SizeAt(arenas, o) <= b || b + SizeAt(arenas, b) <= o
    ensures 0 <= o && o + SizeAt(arenas, o) <= PAGE_SIZE * n && 0 <= b && b + SizeAt(arenas, b) <= PAGE_SIZE * n &&
      0 < SizeAt(arenas, o)
  {
    hide Tables, IsBlock, Page, SizeAt, LiveOk, Counted, FreeOk;
    TablesParts(n, arenas, free, live);
    forall a | a in live ensures IsBlock(arenas, a) { ArenaSteps.LiveAligned(arenas, live, a); }
    if o < b { BlocksApart(n, arenas, o, b); } else { BlocksApart(n, arenas, b, o); }
    InsideMem(n, arenas, o);
    InsideMem(n, arenas, b);
  }

  lemma InsideMem(n: int, arenas: map<int, Arena>, a: int)
    requires ArenasApart(n, arenas) && IsBlock(arenas, a)
    ensures 0 <= a && a + SizeAt(arenas, a) <= PAGE_SIZE * n && 0 < SizeAt(arenas, a)
  {
    hide Aligned;
    BlockInside(n, arenas, a);
    PageNat(n, arenas, Page(a));
  }

  lemma MovedKept(m: seq<bv8>, m1: seq<bv8>, m2: seq<bv8>, arenas: map<int, Arena>, arenas': map<int, Arena>,
                  live0: map<int, int>, live: map<int, int>,
                  o: int, b: int, n: int)
    requires Carried(m, m1, o, b, n) && b in live && n <= SizeAt(arenas, b) && SameSizes(arenas, arenas', live)
    requires live == live0 - {o} && Kept(m1, m2, arenas', live) && Kept(m, m1, arenas, live0 - {b})
    ensures Carried(m, m2, o, b, n) && Kept(m, m2, arenas', live - {b})
  {
    hide SizeAt;
    assert forall a :: a in live - {b} ==> a in live0 - {b};
  }

  lemma LiveHasArena(n: int, arenas: map<int, Arena>, free: seq<seq<int>>, live: map<int, int>, a: int)
    requires Tables(n, arenas, free, live) && a in live
    ensures Page(a) in arenas
  {
    hide FreeOk, Counted, ArenasApart, Page, Aligned;
  }

  /** Live blocks are pairwise disjoint, lie past the headers, and stand on pages marked used. */
  lemma LiveApart(n: int, used: seq<bool>, arenas: map<int, Arena>, free: seq<seq<int>>, live: map<int, int>, a: int,
                  b: int)
    requires Tables(n, arenas, free, live) && Marked(used, arenas) && a in live && b in live && a < b
    ensures a + SizeAt(arenas, a) <= b
    ensures forall p :: p in arenas ==> PAGE_SIZE * p + HEADER <= a || a + SizeAt(arenas, a) <= PAGE_SIZE * p
    ensures forall k :: PAGE_SIZE * k < a + SizeAt(arenas, a) && a < PAGE_SIZE * (k + 1) ==> 0 <= k < |used| && used[k]
  {
    hide Tables, Marked, SizeAt, IsBlock;
    TablesParts(n, arenas, free, live);
    ArenaSteps.LiveAligned(arenas, live, a);
    ArenaSteps.LiveAligned(arenas, live, b);
    BlocksApart(n, arenas, a, b);
    forall p | p in arenas ensures PAGE_SIZE * p + HEADER <= a || a + SizeAt(arenas, a) <= PAGE_SIZE * p {
      HeadersApart(n, arenas, a, p);
    }
    BlockInside(n, arenas, a);
    forall k | PAGE_SIZE * k < a + SizeAt(arenas, a) && a < PAGE_SIZE * (k + 1) ensures 0 <= k < |used| && used[k] {
      CoveredMarked(used, arenas, Page(a), k);
    }
  }

  lemma CoveredMarked(used: seq<bool>, arenas: map<int, Arena>, p: int, k: int)
    requires Marked(used, arenas) && Covers(arenas, p, k)
    ensures 0 <= k < |used| && used[k]
  {}

  ghost predicate Cleared(s: seq<int>, t: seq<int>, d: int, p: int, i: nat) {
    Once(t) && forall a :: a in t <==> a in s && a !in FirstSlots(d, p, i)
  }

  lemma ClearedStart(s: seq<int>, d: int, p: int)
    requires Once(s)
    ensures Cleared(s, s, d, p, 0)
  {}

  lemma ClearedStep(s: seq<int>, t: seq<int>, d: int, p: int, i: nat)
    requires Cleared(s, t, d, p, i)
    ensures Cleared(s, Without(t, Slot(d, p, i)), d, p, i + 1)
  {
    hide Slot, Without, FirstSlots;
    WithoutIs(t, Slot(d, p, i));
    SlotsStep(d, p, i);
  }

  lemma ClearedEnd(s: seq<int>, t: seq<int>, d: int, p: int)
    requires Cleared(s, t, d, p, BlocksPerArena(d)) && forall a :: a in s && Page(a) == p ==> Aligned(d, a)
    ensures ArenaSteps.Purged(s, t, p)
  {
    hide Page, Aligned, FirstSlots;
    forall a ensures a in FirstSlots(d, p, BlocksPerArena(d)) <==> Page(a) == p && Aligned(d, a) {
      ArenaSteps.SlotsMember(d, p, a);
    }
  }

  /** The bytes of live blocks are as they were. */
  ghost predicate Kept(m: seq<bv8>, m': seq<bv8>, arenas: map<int, Arena>, live: map<int, int>) {
    |m'| == |m| && forall a, k :: a in live && a <= k < a + SizeAt(arenas, a) && 0 <= k < |m| ==> m'[k] == m[k]
  }

  /** Overwriting the pages of an arena that holds no live block touches no live block. */
  lemma PagesKept(n: int, arenas: map<int, Arena>, live: map<int, int>, m: seq<bv8>, m': seq<bv8>, p: int)
    requires ArenasApart(n, arenas) && p in arenas && |m'| == |m|
    requires forall a :: a in live ==> IsBlock(arenas, a) && Page(a) != p
    requires forall k :: 0 <= k < |m| && !(PAGE_SIZE * p <= k < PAGE_SIZE * (p + Pages(arenas[p]))) ==> m'[k] == m[k]
    ensures Kept(m, m', arenas, live)
  {
    hide Page, SizeAt, IsBlock;
    forall a, k | a in live && a <= k < a + SizeAt(arenas, a) && 0 <= k < |m| ensures m'[k] == m[k] {
      BlockInside(n, arenas, a);
      ArenaSteps.BlockHasPage(arenas, a);
    }
  }

  lemma SizesKept(arenas: map<int, Arena>, arenas': map<int, Arena>, live: map<int, int>, m: seq<bv8>, m': seq<bv8>)
    requires Kept(m, m', arenas, live) && SameSizes(arenas, arenas', live)
    ensures Kept(m, m', arenas', live)
  {
    hide SizeAt;
  }

  lemma BigFreeFacts(n: nat, used: seq<bool>, arenas: map<int, Arena>, free: seq<seq<int>>, live: map<int, int>, b: int)
    requires Tables(n, arenas, free, live) && NoneIdle(arenas) && Marked(used, arenas) && n <= |used|
    requires b in live && Page(b) in arenas && arenas[Page(b)].Big?
    ensures var p, cnt := Page(b), arenas[Page(b)].pageCnt; var arenas' := arenas - {p};
            && 0 <= p && 1 <= cnt && p + cnt <= n && Uniform(used, p, cnt, true) && Pages(arenas[p]) == cnt
            && Tables(n, arenas', free, live - {b}) && NoneIdle(arenas') && Marked(Filled(used, p, cnt, false), arenas')
            && SameSizes(arenas, arenas', live - {b})
    ensures ArenasApart(n, arenas) && forall a :: a in live - {b} ==> IsBlock(arenas, a) && Page(a) != Page(b)
  {
    hide Tables, Marked, Page, IsBlock, SameSizes;
    var p, cnt := Page(b), arenas[Page(b)].pageCnt;
    TablesParts(n, arenas, free, live);
    assert ArenaOk(n, p, arenas[p]);
    PageMarked(used, arenas, p);
    ArenaSteps.DropBig(n, arenas, free, live, b);
    MarkedDrop(n, used, arenas, p);
    TablesParts(n, arenas - {p}, free, live - {b});
    DropSizes(arenas, live - {b}, p);
    forall a | a in live - {b} ensures IsBlock(arenas, a) && Page(a) != p { LivePage(arenas, live, b, a); }
  }

  lemma ReleaseFacts(n: nat, used: seq<bool>, arenas: map<int, Arena>, free: seq<seq<int>>, live: map<int, int>, p: int)
    requires Tables(n, arenas, free, live) && Marked(used, arenas) && Ready(arenas, p) && n <= |used|
    requires p in arenas && arenas[p].Small? && BlocksPerArena(arenas[p].desc) <= arenas[p].freeCnt
    ensures var d := arenas[p].desc; var arenas' := arenas - {p};
            && 0 <= d < DESC_CNT && |free| == DESC_CNT && Once(free[d]) &&
                 (forall a :: a in free[d] && Page(a) == p ==> Aligned(d, a))
            && 0 <= p < n && Uniform(used, p, 1, true) && Pages(arenas[p]) == 1
            && NoneIdle(arenas') && Marked(Filled(used, p, 1, false), arenas') && SameSizes(arenas, arenas', live)
    ensures ArenasApart(n, arenas) && forall a :: a in live ==> IsBlock(arenas, a) && Page(a) != p
  {
    hide Tables, Marked, Page, IsBlock, SameSizes, Aligned, LiveOk, Counted;
    TablesParts(n, arenas, free, live);
    assert ArenaOk(n, p, arenas[p]);
    PageMarked(used, arenas, p);
    MarkedDrop(n, used, arenas, p);
    forall a | a in live ensures IsBlock(arenas, a) && Page(a) != p {
      ArenaSteps.LiveAligned(arenas, live, a);
      ArenaSteps.NoneLive(n, arenas, free, live, p, a);
    }
    ArenaSteps.DropLive(arenas, live, p);
    DropSizes(arenas, live, p);
  }

  lemma ReleaseTables(n: int, arenas: map<int, Arena>, free: seq<seq<int>>, free': seq<seq<int>>, live: map<int, int>,
                      p: int)
    requires Tables(n, arenas, free, live) && p in arenas && arenas[p].Small? &&
      BlocksPerArena(arenas[p].desc) <= arenas[p].freeCnt
    requires |free| == DESC_CNT && 0 <= arenas[p].desc < DESC_CNT
    requires exists t :: ArenaSteps.Purged(free[arenas[p].desc], t, p) && free' == free[arenas[p].desc := t]
    ensures Tables(n, arenas - {p}, free', live)
  {
    hide Tables, ArenaSteps.Purged;
    var t :| ArenaSteps.Purged(free[arenas[p].desc], t, p) && free' == free[arenas[p].desc := t];
    ArenaSteps.Release(n, arenas, free, live, p, t);
  }

  lemma PutFacts(n: nat, used: seq<bool>, arenas: map<int, Arena>, free: seq<seq<int>>, live: map<int, int>, b: int)
    requires Tables(n, arenas, free, live) && NoneIdle(arenas) && Marked(used, arenas)
    requires b in live && Page(b) in arenas && arenas[Page(b)].Small?
    ensures var p := Page(b); var d := arenas[p].desc; var arenas' := arenas[p := Small(d, arenas[p].freeCnt + 1)];
            && 0 <= d < DESC_CNT && |free| == DESC_CNT && 0 <= b && b + BlockSize(d) <= PAGE_SIZE * n &&
                 SizeAt(arenas, b) == BlockSize(d)
            && Tables(n, arenas', free[d := [b] + free[d]], live - {b}) && Ready(arenas', p) && Marked(used, arenas')
            && SameSizes(arenas, arenas', live - {b})
    ensures ArenasApart(n, arenas) && forall a :: a in live ==> IsBlock(arenas, a)
  {
    hide Tables, Marked, Page, IsBlock, Aligned, LiveOk, Counted, SizeAt, BlockSize, ArenasApart;
    var p := Page(b);
    var d := arenas[p].desc;
    var arenas' := arenas[p := Small(d, arenas[p].freeCnt + 1)];
    TablesParts(n, arenas, free, live);
    forall a | a in live ensures IsBlock(arenas, a) { ArenaSteps.LiveAligned(arenas, live, a); }
    ArenaSteps.LiveAligned(arenas, live, b);
    ArenaSteps.SmallSize(arenas, d, b);
    BlockInside(n, arenas, b);
    PageNat(n, arenas, p);
    ArenaSteps.Put(n, arenas, free, live, d, b);
    MarkedShape(used, arenas, arenas');
    forall a ensures SizeAt(arenas', a) == SizeAt(arenas, a) { ShapeSizes(arenas, arenas', a); }
  }

  lemma PageNat(n: int, arenas: map<int, Arena>, p: int)
    requires ArenasApart(n, arenas) && p in arenas
    ensures 0 <= p
  {}

  lemma FillKept(n: int, arenas: map<int, Arena>, live: map<int, int>, m: seq<bv8>, m': seq<bv8>, b: int)
    requires ArenasApart(n, arenas) && b in live && (forall a :: a in live ==> IsBlock(arenas, a)) && |m'| == |m|
    requires forall k :: 0 <= k < |m| && !(b <= k < b + SizeAt(arenas, b)) ==> m'[k] == m[k]
    ensures Kept(m, m', arenas, live - {b})
  {
    hide SizeAt, IsBlock, ArenasApart;
    forall a, k | a in live - {b} && a <= k < a + SizeAt(arenas, a) && 0 <= k < |m| ensures m'[k] == m[k] {
      if a < b { BlocksApart(n, arenas, a, b); } else { BlocksApart(n, arenas, b, a); }
    }
  }

  lemma KeptTrans(m: seq<bv8>, m1: seq<bv8>, m2: seq<bv8>, arenas: map<int, Arena>, live: map<int, int>)
    requires Kept(m, m1, arenas, live) && Kept(m1, m2, arenas, live)
    ensures Kept(m, m2, arenas, live)
  {
    hide SizeAt;
  }

  lemma NoneIdleNow(arenas: map<int, Arena>, p: int)
    requires Ready(arenas, p) && p in arenas && arenas[p].Small? && arenas[p].freeCnt < BlocksPerArena(arenas[p].desc)
    ensures NoneIdle(arenas)
  {}

  lemma PageMarked(used: seq<bool>, arenas: map<int, Arena>, p: nat)
    requires Marked(used, arenas) && p in arenas && 0 <= Pages(arenas[p]) && p + Pages(arenas[p]) <= |used|
    ensures Uniform(used, p, Pages(arenas[p]), true)
  {
    forall k | p <= k < p + Pages(arenas[p]) ensures used[k] { assert Covers(arenas, p, k); }
  }

  lemma DropSizes(arenas: map<int, Arena>, live: map<int, int>, p: int)
    requires LiveOk(arenas - {p}, live)
    ensures SameSizes(arenas, arenas - {p}, live)
  {
    hide Page, Aligned, Offset, BlockSize;
  }

  lemma LivePage(arenas: map<int, Arena>, live: map<int, int>, b: int, a: int)
    requires LiveOk(arenas, live) && a in live && b in live && a != b && Page(b) in arenas && arenas[Page(b)].Big?
    ensures IsBlock(arenas, a) && Page(a) != Page(b)
  {
    hide Aligned, SizeAt;
    if Page(a) == Page(b) { SameBig(a, b); }
  }

  /** When malloc returns null. */
  ghost predicate NullFor(size: int, free: seq<seq<int>>, used: seq<bool>, n: nat)
    requires n <= |used|
  {
    || size == 0
    || exists d :: Smallest(d, size) && if d == DESC_CNT then NoRun(used, n, PageCount(size))
      else d < |free| && free[d] == [] && NoRun(used, n, 1)
  }

  lemma NullZero(free: seq<seq<int>>, used: seq<bool>, n: nat)
    requires n <= |used|
    ensures NullFor(0, free, used, n)
  {}

  lemma NullIs(d: int, size: int, free: seq<seq<int>>, used: seq<bool>, n: nat)
    requires n <= |used| && Smallest(d, size) && 0 < size && |free| == DESC_CNT
    ensures NullFor(size, free, used, n) <==> if d == DESC_CNT then NoRun(used, n, PageCount(size))
      else free[d] == [] && NoRun(used, n, 1)
    ensures d < DESC_CNT ==> size <= BlockSize(d) && size < TOO_BIG
  {
    hide NoRun, PageCount, BlockSize;
    forall e | Smallest(e, size) ensures e == d {}
  }

  lemma PageCountNat(size: int)
    requires 0 <= size
    ensures 0 <= PageCount(size)
  {}

  lemma SizesTrans(a: map<int, Arena>, b: map<int, Arena>, c: map<int, Arena>, live: map<int, int>)
    requires SameSizes(a, b, live) && SameSizes(b, c, live)
    ensures SameSizes(a, c, live)
  {
    hide SizeAt;
  }

  /** Only the arena on page q may be entirely free. */
  ghost predicate Ready(arenas: map<int, Arena>, q: int) {
    forall p :: p in arenas && arenas[p].Small? ==>
      arenas[p].freeCnt <= BlocksPerArena(arenas[p].desc) - if p == q then 0 else 1
  }

  lemma SlotsStep(d: int, p: int, i: int)
    requires 0 <= i
    ensures FirstSlots(d, p, i + 1) == FirstSlots(d, p, i) + [Slot(d, p, i)]
  {}

  lemma NewArenaFacts(n: nat, used: seq<bool>, arenas: map<int, Arena>, free: seq<seq<int>>, live: map<int, int>,
                      d: int, p: nat)
    requires Tables(n, arenas, free, live) && NoneIdle(arenas) && Marked(used, arenas) && n <= |used|
    requires 0 <= d < DESC_CNT && |free| == DESC_CNT && free[d] == [] && IsFirst(used, n, 0, 1, false, p)
    ensures var arenas', slots := arenas[p := Small(d, BlocksPerArena(d))], FirstSlots(d, p, BlocksPerArena(d));
            && Tables(n, arenas', free[d := slots], live) && Marked(Filled(used, p, 1, true), arenas')
            && SameSizes(arenas, arenas', live) && slots != [] && Ready(arenas', Page(slots[0]))
    ensures FirstSlots(d, p, 0) == [] && free == free[d := FirstSlots(d, p, 0)]
  {
    hide Tables, Marked, FirstSlots, Page, Slot, SameSizes;
    assert ArenasApart(n, arenas) && LiveOk(arenas, live) by { TablesParts(n, arenas, free, live); }
    UnmarkedUnowned(n, used, arenas, p, 1);
    ArenaSteps.NewArena(n, arenas, free, live, d, p);
    var x := Small(d, BlocksPerArena(d));
    MarkedAdd(used, arenas, p, x);
    ArenaSteps.AddApart(n, arenas, p, x);
    AddSizes(arenas, live, p, x);
    SlotAligned(d, p, 0);
  }

  lemma TablesParts(n: int, arenas: map<int, Arena>, free: seq<seq<int>>, live: map<int, int>)
    requires Tables(n, arenas, free, live)
    ensures ArenasApart(n, arenas) && FreeOk(arenas, free, live) && LiveOk(arenas, live) && Counted(arenas, free) &&
      |free| == DESC_CNT
  {
    hide ArenasApart, LiveOk, Counted, BlockOf;
  }

  lemma AddSizes(arenas: map<int, Arena>, live: map<int, int>, p: int, x: Arena)
    requires LiveOk(arenas, live) && p !in arenas
    ensures SameSizes(arenas, arenas[p := x], live)
  {
    hide Page, Aligned, Offset, BlockSize;
  }

  lemma TakeFacts(n: nat, used: seq<bool>, arenas: map<int, Arena>, free: seq<seq<int>>, live: map<int, int>, d: int,
                  size: int)
    requires Tables(n, arenas, free, live) && Marked(used, arenas) && size <= BlockSize(d)
    requires 0 <= d < DESC_CNT && |free| == DESC_CNT && free[d] != [] && Ready(arenas, Page(free[d][0]))
    ensures var b := free[d][0]; Page(b) in arenas && arenas[Page(b)].Small? && b !in live
    ensures var b := free[d][0]; var arenas' := arenas[Page(b) := Small(d, arenas[Page(b)].freeCnt - 1)];
            && Tables(n, arenas', free[d := free[d][1..]], live[b := size]) && Marked(used, arenas') &&
                 NoneIdle(arenas')
            && SameSizes(arenas, arenas', live) && SizeAt(arenas', b) == BlockSize(d)
  {
    hide Tables, Marked, Page, SizeAt, BlockSize, BlockOf;
    ArenaSteps.Take(n, arenas, free, live, d, size);
    var b := free[d][0];
    ArenaSteps.BlockHasPage(arenas, b);
    var arenas' := arenas[Page(b) := Small(d, arenas[Page(b)].freeCnt - 1)];
    MarkedShape(used, arenas, arenas');
    forall a ensures SizeAt(arenas', a) == SizeAt(arenas, a) { ShapeSizes(arenas, arenas', a); }
    ArenaSteps.SmallSize(arenas, d, b);
  }

  lemma ShapeSizes(arenas: map<int, Arena>, arenas': map<int, Arena>, a: int)
    requires ArenaSteps.SameShape(arenas, arenas')
    ensures SizeAt(arenas', a) == SizeAt(arenas, a)
  {
    hide Page, Offset, BlockSize;
  }

  lemma BigFacts(n: nat, used: seq<bool>, arenas: map<int, Arena>, free: seq<seq<int>>, live: map<int, int>, p: nat,
                 size: int)
    requires Tables(n, arenas, free, live) && NoneIdle(arenas) && Marked(used, arenas) && n <= |used| && 0 < size < WORD
    requires 1 <= PageCount(size) && IsFirst(used, n, 0, PageCount(size), false, p)
    ensures var arenas', b := arenas[p := Big(PageCount(size))], p * PAGE_SIZE + HEADER;
            && Tables(n, arenas', free, live[b := size]) && NoneIdle(arenas') &&
                 Marked(Filled(used, p, PageCount(size), true), arenas')
            && SameSizes(arenas, arenas', live) && b !in live && (size <= SizeAt(arenas', b) <==> size < TOO_BIG)
  {
    hide Tables, Marked, Page, PageCount, SameSizes;
    var cnt := PageCount(size);
    assert ArenasApart(n, arenas) && LiveOk(arenas, live) by { TablesParts(n, arenas, free, live); }
    UnmarkedUnowned(n, used, arenas, p, cnt);
    PageCountFits(size);
    ArenaSteps.AddBig(n, arenas, free, live, p, cnt, size);
    MarkedAdd(used, arenas, p, Big(cnt));
    ArenaSteps.AddApart(n, arenas, p, Big(cnt));
    AddSizes(arenas, live, p, Big(cnt));
    PageOf(p, HEADER);
  }
}
