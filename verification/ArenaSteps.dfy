/** What each change of malloc.c's tables keeps. */
module ArenaSteps {
  import opened Arenas
  import opened Seqs

  /** The arenas differ in their counts only. */
  ghost predicate SameShape(arenas: map<int, Arena>, arenas': map<int, Arena>) {
    && (forall p :: p in arenas <==> p in arenas')
    && (forall p :: p in arenas ==> if arenas[p].Small? then arenas'[p].Small? && arenas'[p].desc == arenas[p].desc
         else arenas'[p] == arenas[p])
  }

  lemma ShapeApart(n: int, arenas: map<int, Arena>, arenas': map<int, Arena>)
    requires ArenasApart(n, arenas) && SameShape(arenas, arenas')
    ensures ArenasApart(n, arenas')
  {}

  lemma ShapeBlocks(arenas: map<int, Arena>, arenas': map<int, Arena>, a: int)
    requires SameShape(arenas, arenas')
    ensures IsBlock(arenas', a) == IsBlock(arenas, a) && forall d :: BlockOf(arenas', d, a) == BlockOf(arenas, d, a)
    ensures Page(a) in arenas ==> SizeAt(arenas', a) == SizeAt(arenas, a)
  {
    hide Aligned, Page, Offset, BlockSize;
  }

  lemma ShapeLive(arenas: map<int, Arena>, arenas': map<int, Arena>, live: map<int, int>, live': map<int, int>)
    requires LiveOk(arenas, live) && SameShape(arenas, arenas')
    requires forall a :: a in live' ==>
      (a in live && live'[a] == live[a]) || (IsBlock(arenas, a) && live'[a] <= SizeAt(arenas, a))
    requires forall p :: p in arenas && arenas[p].Big? ==> p * PAGE_SIZE + HEADER in live'
    ensures LiveOk(arenas', live')
  {
    hide IsBlock, SizeAt, Page, BlockOf;
    forall a | a in live' ensures IsBlock(arenas', a) && (live'[a] <= SizeAt(arenas', a) || TOO_BIG <= live'[a]) {
      BlockHasPage(arenas, a);
      ShapeBlocks(arenas, arenas', a);
    }
  }

  lemma BlockHasPage(arenas: map<int, Arena>, a: int)
    ensures IsBlock(arenas, a) ==> Page(a) in arenas
    ensures forall d :: BlockOf(arenas, d, a) ==>
      Page(a) in arenas && arenas[Page(a)].Small? && arenas[Page(a)].desc == d && IsBlock(arenas, a)
  {
    hide Page, Aligned, Offset;
  }

  // ----- taking a block from a free list -----

  lemma TakeFree(arenas: map<int, Arena>, arenas': map<int, Arena>, free: seq<seq<int>>, live: map<int, int>, d: int,
                 size: int)
    requires FreeOk(arenas, free, live) && 0 <= d < DESC_CNT && free[d] != [] && SameShape(arenas, arenas')
    ensures FreeOk(arenas', free[d := free[d][1..]], live[free[d][0] := size])
  {
    hide BlockOf, IsBlock, SameShape;
    var s := free[d];
    assert s == [s[0]] + s[1..];
    var free', live' := free[d := s[1..]], live[s[0] := size];
    forall e, a | 0 <= e < DESC_CNT ensures a in free'[e] <==> BlockOf(arenas', e, a) && a !in live' {
      ShapeBlocks(arenas, arenas', a);
      assert s[0] in free[d];
      BlockHasOneDesc(arenas, d, e, a);
    }
  }

  lemma BlockHasOneDesc(arenas: map<int, Arena>, d: int, e: int, a: int)
    ensures BlockOf(arenas, d, a) && BlockOf(arenas, e, a) ==> d == e
  {
    hide Page, Aligned;
  }

  lemma TakeCount(s: seq<int>, p: int)
    requires s != [] && Once(s)
    ensures |OnPage(s, p)| == |OnPage(s[1..], p)| + if Page(s[0]) == p then 1 else 0
  {
    hide Page;
    assert s == [s[0]] + s[1..];
    if Page(s[0]) == p {
      assert OnPage(s, p) == OnPage(s[1..], p) + {s[0]};
    } else {
      assert OnPage(s, p) == OnPage(s[1..], p);
    }
  }

  /** The counts follow a change at one end of one free list. */
  lemma CountStep(arenas: map<int, Arena>, arenas': map<int, Arena>, free: seq<seq<int>>, d: int, s: seq<int>, q: int,
                  delta: int)
    requires Counted(arenas, free) && 0 <= d < DESC_CNT && SameShape(arenas, arenas')
    requires q in arenas && arenas[q].Small? && arenas[q].desc == d
    requires forall p :: p in arenas && arenas[p].Small? ==>
      arenas'[p].freeCnt == arenas[p].freeCnt + if p == q then delta else 0
    requires forall p :: |OnPage(s, p)| == |OnPage(free[d], p)| + if p == q then delta else 0
    ensures Counted(arenas', free[d := s])
  {
    hide OnPage;
  }

  lemma Take(n: int, arenas: map<int, Arena>, free: seq<seq<int>>, live: map<int, int>, d: int, size: int)
    requires Tables(n, arenas, free, live) && 0 <= d < DESC_CNT && free[d] != [] && size <= BlockSize(d)
    ensures var b := free[d][0];
            && BlockOf(arenas, d, b) && b !in live
            && Tables(n, arenas[Page(b) := Small(d, arenas[Page(b)].freeCnt - 1)], free[d := free[d][1..]],
                 live[b := size])
  {
    hide Page, Aligned, BlockOf, IsBlock, SizeAt, BlockSize, OnPage;
    var s := free[d];
    var b := s[0];
    assert b in free[d];
    BlockHasPage(arenas, b);
    var arenas' := arenas[Page(b) := Small(d, arenas[Page(b)].freeCnt - 1)];
    ShapeApart(n, arenas, arenas');
    TakeFree(arenas, arenas', free, live, d, size);
    SmallSize(arenas, d, b);
    ShapeLive(arenas, arenas', live, live[b := size]);
    forall p ensures |OnPage(s, p)| == |OnPage(s[1..], p)| + if Page(b) == p then 1 else 0 { TakeCount(s, p); }
    CountStep(arenas, arenas', free, d, s[1..], Page(b), -1);
  }

  lemma SmallSize(arenas: map<int, Arena>, d: int, a: int)
    requires BlockOf(arenas, d, a)
    ensures Page(a) in arenas && SizeAt(arenas, a) == BlockSize(d)
  {
    hide Page, Aligned;
  }

  // ----- giving a block back -----

  lemma PutFree(arenas: map<int, Arena>, arenas': map<int, Arena>, free: seq<seq<int>>, live: map<int, int>, d: int,
                b: int)
    requires FreeOk(arenas, free, live) && 0 <= d < DESC_CNT && b in live && BlockOf(arenas, d, b) &&
      SameShape(arenas, arenas')
    ensures FreeOk(arenas', free[d := [b] + free[d]], live - {b})
  {
    hide BlockOf, IsBlock, SameShape;
    var free', live' := free[d := [b] + free[d]], live - {b};
    assert b !in free[d];
    forall e, a | 0 <= e < DESC_CNT ensures a in free'[e] <==> BlockOf(arenas', e, a) && a !in live' {
      ShapeBlocks(arenas, arenas', a);
      BlockHasOneDesc(arenas, d, e, a);
    }
  }

  lemma PutLive(arenas: map<int, Arena>, arenas': map<int, Arena>, live: map<int, int>, d: int, b: int)
    requires LiveOk(arenas, live) && SameShape(arenas, arenas') && BlockOf(arenas, d, b)
    ensures LiveOk(arenas', live - {b})
  {
    hide IsBlock, SizeAt, Aligned, Offset;
    forall p | p in arenas && arenas[p].Big? ensures p * PAGE_SIZE + HEADER in live - {b} { PageOf(p, HEADER); }
    ShapeLive(arenas, arenas', live, live - {b});
  }

  lemma Put(n: int, arenas: map<int, Arena>, free: seq<seq<int>>, live: map<int, int>, d: int, b: int)
    requires Tables(n, arenas, free, live) && b in live && BlockOf(arenas, d, b)
    ensures 0 <= d < DESC_CNT
    ensures Tables(n, arenas[Page(b) := Small(d, arenas[Page(b)].freeCnt + 1)], free[d := [b] + free[d]], live - {b})
  {
    hide Page, Aligned, BlockOf, IsBlock, SizeAt, BlockSize, OnPage, LiveOk;
    BlockHasPage(arenas, b);
    var s := [b] + free[d];
    assert s[1..] == free[d];
    var arenas' := arenas[Page(b) := Small(d, arenas[Page(b)].freeCnt + 1)];
    ShapeApart(n, arenas, arenas');
    PutFree(arenas, arenas', free, live, d, b);
    PutLive(arenas, arenas', live, d, b);
    forall p ensures |OnPage(s, p)| == |OnPage(s[1..], p)| + if Page(b) == p then 1 else 0 { TakeCount(s, p); }
    CountStep(arenas, arenas', free, d, s, Page(b), 1);
  }

  // ----- a new arena -----

  lemma NewFree(arenas: map<int, Arena>, free: seq<seq<int>>, live: map<int, int>, d: int, p: int)
    requires FreeOk(arenas, free, live) && LiveOk(arenas, live) && 0 <= d < DESC_CNT && free[d] == [] && p !in arenas
    ensures FreeOk(arenas[p := Small(d, BlocksPerArena(d))], free[d := FirstSlots(d, p, BlocksPerArena(d))], live)
  {
    hide BlockOf, IsBlock, FirstSlots, SizeAt, Slot;
    var cnt := BlocksPerArena(d);
    var s := FirstSlots(d, p, cnt);
    var arenas', free' := arenas[p := Small(d, cnt)], free[d := s];
    forall i, j | 0 <= i < j < |s| ensures s[i] != s[j] { SlotInjective(d, p, i, j); }
    forall e, a | 0 <= e < DESC_CNT ensures a in free'[e] <==> BlockOf(arenas', e, a) && a !in live {
      SlotsMember(d, p, a);
      NewBlock(arenas, p, d, e, a);
      BlockHasPage(arenas, a);
    }
  }

  lemma SlotsMember(d: int, p: int, a: int)
    ensures a in FirstSlots(d, p, BlocksPerArena(d)) <==> Page(a) == p && Aligned(d, a)
  {
    hide Page, Aligned, FirstSlots, Slot;
    BlocksOfPage(d, p, a);
    var s := FirstSlots(d, p, BlocksPerArena(d));
    if a in AllBlocks(d, p) {
      var i :| 0 <= i < BlocksPerArena(d) && a == Slot(d, p, i);
      assert s[i] == a;
    }
  }

  lemma NewBlock(arenas: map<int, Arena>, p: int, d: int, e: int, a: int)
    requires p !in arenas
    ensures BlockOf(arenas[p := Small(d, BlocksPerArena(d))], e, a) <==>
      BlockOf(arenas, e, a) || (e == d && Page(a) == p && Aligned(d, a))
    ensures BlockOf(arenas, e, a) ==> Page(a) != p
  {
    hide Page, Aligned;
  }

  /** Adding an arena keeps the other blocks' places and sizes. */
  lemma AddLive(arenas: map<int, Arena>, live: map<int, int>, p: int, x: Arena)
    requires LiveOk(arenas, live) && p !in arenas && x.Small?
    ensures LiveOk(arenas[p := x], live)
  {
    hide Page, Aligned, Offset, BlockSize;
  }

  lemma AddApart(n: int, arenas: map<int, Arena>, p: int, x: Arena)
    requires ArenasApart(n, arenas) && ArenaOk(n, p, x) && Unowned(arenas, p, Pages(x))
    ensures p !in arenas && ArenasApart(n, arenas[p := x])
  {}

  lemma NewCounted(n: int, arenas: map<int, Arena>, free: seq<seq<int>>, d: int, p: int)
    requires ArenasApart(n, arenas) && Counted(arenas, free) && 0 <= d < DESC_CNT && p !in arenas && free[d] == []
    ensures Counted(arenas[p := Small(d, BlocksPerArena(d))], free[d := FirstSlots(d, p, BlocksPerArena(d))])
  {
    hide Page, FirstSlots, Slot, Aligned;
    var s := FirstSlots(d, p, BlocksPerArena(d));
    forall a ensures a in s <==> Page(a) == p && Aligned(d, a) { SlotsMember(d, p, a); }
    forall a ensures a in AllBlocks(d, p) <==> Page(a) == p && Aligned(d, a) { BlocksOfPage(d, p, a); }
    assert OnPage(s, p) == AllBlocks(d, p);
    SlotCount(d, p, BlocksPerArena(d));
    forall q | q != p ensures OnPage(s, q) == OnPage(free[d], q) {}
  }

  lemma NewArena(n: int, arenas: map<int, Arena>, free: seq<seq<int>>, live: map<int, int>, d: int, p: int)
    requires Tables(n, arenas, free, live) && 0 <= d < DESC_CNT && free[d] == [] && 0 <= p < n && Unowned(arenas, p, 1)
    ensures Tables(n, arenas[p := Small(d, BlocksPerArena(d))], free[d := FirstSlots(d, p, BlocksPerArena(d))], live)
  {
    hide FreeOk, LiveOk, Counted, FirstSlots;
    AddApart(n, arenas, p, Small(d, BlocksPerArena(d)));
    FreeLists(arenas, free, live);
    NewFree(arenas, free, live, d, p);
    AddLive(arenas, live, p, Small(d, BlocksPerArena(d)));
    NewCounted(n, arenas, free, d, p);
  }

  lemma FreeLists(arenas: map<int, Arena>, free: seq<seq<int>>, live: map<int, int>)
    requires FreeOk(arenas, free, live)
    ensures |free| == DESC_CNT
  {}

  // ----- releasing an arena -----

  /** t is s without the blocks of page p. */
  ghost predicate Purged(s: seq<int>, t: seq<int>, p: int) {
    Once(t) && forall a :: a in t <==> a in s && Page(a) != p
  }

  lemma DropFree(arenas: map<int, Arena>, free: seq<seq<int>>, live: map<int, int>, d: int, p: int, t: seq<int>)
    requires FreeOk(arenas, free, live) && 0 <= d < DESC_CNT && p in arenas && arenas[p].Small? && arenas[p].desc == d
    requires Purged(free[d], t, p)
    ensures FreeOk(arenas - {p}, free[d := t], live)
  {
    hide Aligned, Page, Once;
    var free' := free[d := t];
    forall e, a | 0 <= e < DESC_CNT ensures a in free'[e] <==> BlockOf(arenas - {p}, e, a) && a !in live {
      assert a in free[e] <==> BlockOf(arenas, e, a) && a !in live;
    }
  }

  lemma DropLive(arenas: map<int, Arena>, live: map<int, int>, p: int)
    requires LiveOk(arenas, live) && p in arenas && (forall a :: a in live ==> Page(a) != p)
    ensures LiveOk(arenas - {p}, live)
  {
    hide Page, Aligned, Offset, BlockSize;
  }

  lemma DropCounted(arenas: map<int, Arena>, free: seq<seq<int>>, d: int, p: int, t: seq<int>)
    requires Counted(arenas, free) && 0 <= d < DESC_CNT && p in arenas && Purged(free[d], t, p)
    ensures Counted(arenas - {p}, free[d := t])
  {
    hide Page, Once;
    forall q | q != p ensures OnPage(t, q) == OnPage(free[d], q) {}
  }

  lemma DropApart(n: int, arenas: map<int, Arena>, p: int)
    requires ArenasApart(n, arenas)
    ensures ArenasApart(n, arenas - {p})
  {}

  /** An arena whose blocks are all free holds no live block. */
  lemma NoneLive(n: int, arenas: map<int, Arena>, free: seq<seq<int>>, live: map<int, int>, p: int, a: int)
    requires Tables(n, arenas, free, live) && p in arenas && arenas[p].Small? &&
      BlocksPerArena(arenas[p].desc) <= arenas[p].freeCnt
    requires a in live
    ensures Page(a) != p
  {
    hide Page, Aligned, OnPage, AllBlocks, Counted, FreeOk, LiveOk;
    if Page(a) == p {
      FreeLists(arenas, free, live);
      AllFree(n, arenas, free, live, p);
      LiveAligned(arenas, live, a);
      BlocksOfPage(arenas[p].desc, p, a);
      OnPageFree(free[arenas[p].desc], p, a);
      FreeNotLive(arenas, free, live, arenas[p].desc, a);
    }
  }

  lemma LiveAligned(arenas: map<int, Arena>, live: map<int, int>, a: int)
    requires LiveOk(arenas, live) && a in live
    ensures Page(a) in arenas && IsBlock(arenas, a) &&
      (arenas[Page(a)].Small? ==> BlockOf(arenas, arenas[Page(a)].desc, a))
  {
    hide Page, Aligned, SizeAt;
  }

  lemma FreeNotLive(arenas: map<int, Arena>, free: seq<seq<int>>, live: map<int, int>, d: int, a: int)
    requires FreeOk(arenas, free, live) && 0 <= d < DESC_CNT && a in free[d]
    ensures a !in live && BlockOf(arenas, d, a)
  {
    hide BlockOf;
  }

  lemma OnPageFree(s: seq<int>, p: int, a: int)
    requires a in OnPage(s, p)
    ensures a in s
  {}

  lemma Release(n: int, arenas: map<int, Arena>, free: seq<seq<int>>, live: map<int, int>, p: int, t: seq<int>)
    requires Tables(n, arenas, free, live) && p in arenas && arenas[p].Small? &&
      BlocksPerArena(arenas[p].desc) <= arenas[p].freeCnt
    requires |free| == DESC_CNT && 0 <= arenas[p].desc < DESC_CNT && Purged(free[arenas[p].desc], t, p)
    ensures Tables(n, arenas - {p}, free[arenas[p].desc := t], live)
  {
    hide FreeOk, LiveOk, Counted, ArenasApart, Purged, Page;
    forall a | a in live ensures Page(a) != p { NoneLive(n, arenas, free, live, p, a); }
    DropApart(n, arenas, p);
    DropFree(arenas, free, live, arenas[p].desc, p, t);
    DropLive(arenas, live, p);
    DropCounted(arenas, free, arenas[p].desc, p, t);
  }

  // ----- big blocks -----

  lemma BigFree(arenas: map<int, Arena>, free: seq<seq<int>>, live: map<int, int>, p: int, cnt: int, size: int)
    requires FreeOk(arenas, free, live) && p !in arenas
    ensures FreeOk(arenas[p := Big(cnt)], free, live[p * PAGE_SIZE + HEADER := size])
  {
    hide Aligned, Page, Once;
    var b := p * PAGE_SIZE + HEADER;
    PageOf(p, HEADER);
    forall e, a | 0 <= e < DESC_CNT ensures a in free[e] <==>
      BlockOf(arenas[p := Big(cnt)], e, a) && a !in live[b := size] {
      assert a in free[e] <==> BlockOf(arenas, e, a) && a !in live;
    }
  }

  lemma BigLive(arenas: map<int, Arena>, live: map<int, int>, p: int, cnt: int, size: int)
    requires LiveOk(arenas, live) && p !in arenas && (size <= PAGE_SIZE * cnt - HEADER || TOO_BIG <= size)
    ensures LiveOk(arenas[p := Big(cnt)], live[p * PAGE_SIZE + HEADER := size])
  {
    hide Page, Aligned, Offset, BlockSize;
    PageOf(p, HEADER);
  }

  lemma BigCounted(arenas: map<int, Arena>, free: seq<seq<int>>, p: int, cnt: int)
    requires Counted(arenas, free)
    ensures Counted(arenas[p := Big(cnt)], free) && Counted(arenas - {p}, free)
  {
    hide OnPage;
  }

  lemma AddBig(n: int, arenas: map<int, Arena>, free: seq<seq<int>>, live: map<int, int>, p: int, cnt: int, size: int)
    requires Tables(n, arenas, free, live) && 0 <= p && 1 <= cnt && p + cnt <= n && Unowned(arenas, p, cnt)
    requires size <= PAGE_SIZE * cnt - HEADER || TOO_BIG <= size
    ensures Tables(n, arenas[p := Big(cnt)], free, live[p * PAGE_SIZE + HEADER := size])
    ensures p * PAGE_SIZE + HEADER !in live
  {
    hide FreeOk, LiveOk, Counted;
    AddApart(n, arenas, p, Big(cnt));
    BigFree(arenas, free, live, p, cnt, size);
    BigLive(arenas, live, p, cnt, size);
    BigCounted(arenas, free, p, cnt);
    NotLive(arenas, live, p);
  }

  lemma NotLive(arenas: map<int, Arena>, live: map<int, int>, p: int)
    requires LiveOk(arenas, live) && p !in arenas
    ensures p * PAGE_SIZE + HEADER !in live
  {
    hide Page, Aligned, Offset, BlockSize;
    PageOf(p, HEADER);
  }

  lemma DropBig(n: int, arenas: map<int, Arena>, free: seq<seq<int>>, live: map<int, int>, b: int)
    requires Tables(n, arenas, free, live) && b in live && Page(b) in arenas && arenas[Page(b)].Big?
    ensures Tables(n, arenas - {Page(b)}, free, live - {b})
  {
    hide FreeOk, LiveOk, Counted, ArenasApart, Page;
    DropApart(n, arenas, Page(b));
    BigDropFree(arenas, free, live, b);
    BigDropLive(arenas, live, b);
    BigCounted(arenas, free, Page(b), 0);
  }

  lemma BigDropFree(arenas: map<int, Arena>, free: seq<seq<int>>, live: map<int, int>, b: int)
    requires FreeOk(arenas, free, live) && Page(b) in arenas && arenas[Page(b)].Big?
    ensures FreeOk(arenas - {Page(b)}, free, live - {b})
  {
    hide Aligned, Page, Once;
    forall e, a | 0 <= e < DESC_CNT ensures a in free[e] <==> BlockOf(arenas - {Page(b)}, e, a) && a !in live - {b} {
      assert a in free[e] <==> BlockOf(arenas, e, a) && a !in live;
    }
  }

  lemma BigDropLive(arenas: map<int, Arena>, live: map<int, int>, b: int)
    requires LiveOk(arenas, live) && b in live && Page(b) in arenas && arenas[Page(b)].Big?
    ensures LiveOk(arenas - {Page(b)}, live - {b})
  {
    hide Aligned, BlockSize;
    forall a | a in live && a != b ensures Page(a) != Page(b) {
      if Page(a) == Page(b) { SameBig(a, b); }
    }
    forall p | p in arenas && p != Page(b) ensures p * PAGE_SIZE + HEADER != b { PageOf(p, HEADER); }
  }
}
