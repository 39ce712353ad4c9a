/** Open, reopen, remove and close (filesys/inode.c), and the sectors that live
    files of at most ten data sectors own. */
module Inodes {
  import opened Bitmaps
  import opened Sectors
  import opened FileSystem
  import opened Files

  /** The sectors of the live files, by inode sector. */
  type Live = map<int, Layout>

  /** Sector s serves a live file in role r. */
  ghost predicate Serves(live: Live, s: int, r: Role) {
    && r.file in live
    && (r == InodeOf(s) || (r.Data? && 0 <= r.k < |live[r.file].data| && live[r.file].data[r.k] == s))
  }

  /** Every sector in use is a system inode or serves a live file. */
  ghost predicate Accounted(owner: Owner, live: Live) {
    forall s :: s in owner ==> s == FREE_MAP_SECTOR || s == ROOT_DIR_SECTOR || Serves(live, s, owner[s])
  }

  ghost predicate SmallFile(disk: seq<Sector>, owner: Owner, f: int, g: Layout) {
    0 <= f < |disk| && FileOk(disk, owner, f, Decode(disk[f]), g) && |g.data| <= DIRECT_NUM
  }

  ghost predicate TableOk(disk: seq<Sector>, owner: Owner, live: Live) {
    Accounted(owner, live) && forall f :: f in live ==> SmallFile(disk, owner, f, live[f])
  }

  ghost predicate SystemRoles(owner: Owner) {
    Owns(owner, FREE_MAP_SECTOR, InodeOf(FREE_MAP_SECTOR)) && Owns(owner, ROOT_DIR_SECTOR, InodeOf(ROOT_DIR_SECTOR))
  }

  // ----- one file changes, the table stays in order -----

  lemma OthersStay(d0: seq<Sector>, o0: Owner, d1: seq<Sector>, o1: Owner, live: Live, h: int)
    requires h in live && SmallFile(d0, o0, h, live[h]) && SameFile(d0, o0, d1, o1, h)
    ensures SmallFile(d1, o1, h, live[h])
  {
    hide FileMid, View, Decode;
    assert FileMid(d0, o0, h, Decode(d0[h]), live[h]);
    FileFrame(d0, o0, d1, o1, h, Decode(d0[h]), live[h]);
    InodeSector(d0, o0, h, Decode(d0[h]), live[h]);
  }

  lemma InodeSector(disk: seq<Sector>, owner: Owner, f: int, d: InodeDisk, g: Layout)
    requires FileMid(disk, owner, f, d, g)
    ensures 0 <= f < |disk| && Owns(owner, f, InodeOf(f)) && Decode(disk[f]) == d && DataOwned(owner, f, g.data)
  {
    hide IndexOk, Raw, Decode;
  }

  /** The sectors that o1 has and o0 does not are exactly the new data sectors. */
  lemma NewAreData(o0: Owner, o1: Owner, f: int, data0: seq<int>, data1: seq<int>, s: int)
    requires Extends(o0, o1, f) && data0 <= data1 && DataOwned(o1, f, data1)
    requires forall s, k :: s in o0 && o0[s] == Data(f, k) ==> 0 <= k < |data0|
    requires |o1| == |o0| + |data1| - |data0|
    requires s in o1 && s !in o0
    ensures exists k :: |data0| <= k < |data1| && s == data1[k]
  {
    var added := Elements(o0, o1, f, data0, data1);
    assert forall x :: x in o0 ==> x in o1;
    var u := added + o0.Keys;
    assert |u| == |added| + |o0.Keys| == |o1.Keys|;
    SubsetSize(u + {s}, o1.Keys);
  }

  lemma {:induction false} Elements(o0: Owner, o1: Owner, f: int, data0: seq<int>, data1: seq<int>)
    returns (added: set<int>)
    requires data0 <= data1 && DataOwned(o1, f, data1) && Extends(o0, o1, f)
    requires forall s, k :: s in o0 && o0[s] == Data(f, k) ==> 0 <= k < |data0|
    ensures |added| == |data1| - |data0| && added <= o1.Keys && added !! o0.Keys
    ensures forall s :: s in added ==> exists k :: |data0| <= k < |data1| && s == data1[k]
    decreases |data1|
  {
    if |data1| == |data0| {
      added := {};
    } else {
      var n := |data1| - 1;
      var rest := Elements(o0, o1, f, data0, data1[..n]);
      assert Owns(o1, data1[n], Data(f, n));
      assert data1[n] !in o0 && data1[n] !in rest;
      added := rest + {data1[n]};
    }
  }

  /** File f, already live, has been written to. */
  lemma TableWrite(d0: seq<Sector>, o0: Owner, d1: seq<Sector>, o1: Owner, live: Live, f: int, d: InodeDisk, g: Layout)
    requires TableOk(d0, o0, live) && SystemRoles(o0) && f in live && Touched(d0, o0, d1, o1, f)
    requires FileOk(d1, o1, f, d, g) && live[f].data <= g.data && |g.data| <= DIRECT_NUM
    requires |o1| == |o0| + |g.data| - |live[f].data|
    ensures TableOk(d1, o1, live[f := g])
  {
    hide FileMid, View, Decode;
    var live' := live[f := g];
    InodeSector(d1, o1, f, d, g);
    forall h | h in live' ensures SmallFile(d1, o1, h, live'[h]) {
      if h != f { OthersStay(d0, o0, d1, o1, live, h); }
    }
    forall s, k | s in o0 && o0[s] == Data(f, k) ensures 0 <= k < |live[f].data| { assert Serves(live, s, o0[s]); }
    forall s | s in o1 && s != FREE_MAP_SECTOR && s != ROOT_DIR_SECTOR ensures Serves(live', s, o1[s]) {
      if s in o0 {
        assert Serves(live, s, o0[s]) && Owns(o1, s, o0[s]);
      } else {
        NewAreData(o0, o1, f, live[f].data, g.data, s);
        var k :| |live[f].data| <= k < |g.data| && s == g.data[k];
        assert Owns(o1, g.data[k], Data(f, k));
      }
    }
  }

  /** A file has been created in the sector f that was free in o0. */
  lemma TableCreate(d0: seq<Sector>, o0: Owner, d1: seq<Sector>, o1: Owner, live: Live, f: int, d: InodeDisk, g: Layout)
    requires TableOk(d0, o0, live) && SystemRoles(o0) && f !in o0 && Touched(d0, o0[f := InodeOf(f)], d1, o1, f)
    requires FileOk(d1, o1, f, d, g) && |g.data| <= DIRECT_NUM
    requires |o1| == |o0[f := InodeOf(f)]| + |g.data|
    ensures f !in live && TableOk(d1, o1, live[f := g])
  {
    hide FileMid, View, Decode;
    var live', o := live[f := g], o0[f := InodeOf(f)];
    InodeSector(d1, o1, f, d, g);
    if f in live { InodeSector(d0, o0, f, Decode(d0[f]), live[f]); }
    forall s | s in o0 ensures Owns(o1, s, o0[s]) { assert s in o && o[s] == o0[s]; }
    assert forall s :: s in o0 ==> s in o && o[s] == o0[s];
    forall h | h in live' ensures SmallFile(d1, o1, h, live'[h]) {
      if h != f { OthersStay(d0, o0, d1, o1, live, h); }
    }
    assert forall s :: s in o0 ==> o0[s].file in live || o0[s].InodeOf?;
    forall s | s in o1 && s != FREE_MAP_SECTOR && s != ROOT_DIR_SECTOR ensures Serves(live', s, o1[s]) {
      if s == f {
      } else if s in o0 {
        assert Serves(live, s, o0[s]) && Owns(o1, s, o0[s]);
      } else {
        NewAreData(o, o1, f, [], g.data, s);
        var k :| 0 <= k < |g.data| && s == g.data[k];
        assert Owns(o1, g.data[k], Data(f, k));
      }
    }
  }

  /** The sectors of file f have been released. */
  lemma TableRelease(disk: seq<Sector>, o0: Owner, o1: Owner, live: Live, f: int)
    requires TableOk(disk, o0, live) && f in live && f >= 2
    requires o1 == o0 - ({f} + set k | 0 <= k < |live[f].data| :: live[f].data[k])
    ensures TableOk(disk, o1, live - {f})
  {
    hide FileMid, View, Decode;
    InodeSector(disk, o0, f, Decode(disk[f]), live[f]);
    var gone := {f} + set k | 0 <= k < |live[f].data| :: live[f].data[k];
    forall s | s in gone ensures s in o0 && o0[s].file == f {
      if s != f {
        var k :| 0 <= k < |live[f].data| && live[f].data[k] == s;
        assert Owns(o0, live[f].data[k], Data(f, k));
      }
    }
    forall h | h in live && h != f ensures SmallFile(disk, o1, h, live[h]) {
      OthersStay(disk, o0, disk, o1, live, h);
    }
  }

  /** The free map is a function of the live files: in two states with the same live
      files it holds the same bits. */
  lemma MapFromLive(used0: seq<bool>, o0: Owner, d0: seq<Sector>, used1: seq<bool>, o1: Owner, d1: seq<Sector>,
                    live: Live, n: int)
    requires MapOk(used0, n, o0) && MapOk(used1, n, o1) && |used0| == |used1| && used0[n..] == used1[n..]
    requires TableOk(d0, o0, live) && TableOk(d1, o1, live)
    ensures used0 == used1
  {
    hide FileMid, View, Decode;
    forall s | 0 <= s < n ensures used0[s] == used1[s] {
      if s in o0 && s >= 2 { InBoth(o0, d0, o1, d1, live, s); }
      if s in o1 && s >= 2 { InBoth(o1, d1, o0, d0, live, s); }
    }
    assert forall s :: n <= s < |used0| ==> used0[s] == used0[n..][s - n] && used1[s] == used1[n..][s - n];
  }

  lemma InBoth(o0: Owner, d0: seq<Sector>, o1: Owner, d1: seq<Sector>, live: Live, s: int)
    requires TableOk(d0, o0, live) && TableOk(d1, o1, live) && s in o0 && s >= 2
    ensures s in o1
  {
    hide FileMid, View, Decode;
    assert Serves(live, s, o0[s]);
    var f := o0[s].file;
    InodeSector(d1, o1, f, Decode(d1[f]), live[f]);
    if o0[s].Data? { assert Owns(o1, live[f].data[o0[s].k], Data(f, o0[s].k)); }
  }

  /** A sector is marked exactly if it is a system inode, the inode of a live file or
      one of its data sectors. */
  lemma MarkedAreOwned(used: seq<bool>, n: int, owner: Owner, disk: seq<Sector>, live: Live, s: int)
    requires MapOk(used, n, owner) && TableOk(disk, owner, live) && 0 <= s < n
    ensures used[s] <==> s < 2 || exists f :: f in live && (s == f || s in live[f].data)
  {
    hide FileMid, View, Decode;
    if used[s] && s >= 2 {
      assert Serves(live, s, owner[s]);
      var f := owner[s].file;
      assert f in live && (s == f || s in live[f].data);
    }
    if f :| f in live && (s == f || s in live[f].data) {
      InodeSector(disk, owner, f, Decode(disk[f]), live[f]);
      if s != f {
        var k :| 0 <= k < |live[f].data| && live[f].data[k] == s;
        assert Owns(owner, live[f].data[k], Data(f, k));
      }
    }
  }

  /** The open inodes have distinct sectors and mirror live inodes on disk. */
  ghost predicate OpenOk(open: seq<Inode>, disk: seq<Sector>, live: Live)
    reads open
  {
    && (forall i :: 0 <= i < |open| ==> Mirrors(open[i], disk, live))
    && DistinctSectors(open)
  }

  ghost predicate Mirrors(inode: Inode, disk: seq<Sector>, live: Live)
    reads inode
  {
    && inode.openCnt >= 1 && inode.sector in live && 0 <= inode.sector < |disk|
    && inode.data == Decode(disk[inode.sector]) && (inode.removed ==> inode.sector >= 2)
  }

  /** An operation on file f leaves the mirrors of the other inodes correct. */
  lemma MirrorsStay(open: seq<Inode>, d0: seq<Sector>, o0: Owner, d1: seq<Sector>, o1: Owner, f: int, live: Live,
                    live': Live)
    requires forall i :: 0 <= i < |open| && open[i].sector != f ==> Mirrors(open[i], d0, live)
    requires TableOk(d0, o0, live) && Touched(d0, o0, d1, o1, f)
    requires forall h :: h in live ==> h in live'
    ensures forall i :: 0 <= i < |open| && open[i].sector != f ==> Mirrors(open[i], d1, live')
  {
    hide FileMid, View, Decode;
    forall i | 0 <= i < |open| && open[i].sector != f ensures Mirrors(open[i], d1, live') {
      var h := open[i].sector;
      assert Mirrors(open[i], d0, live) && SmallFile(d0, o0, h, live[h]);
      InodeSector(d0, o0, h, Decode(d0[h]), live[h]);
    }
  }

  ghost predicate DistinctSectors(open: seq<Inode>)
    reads open
  {
    forall i, j :: 0 <= i < j < |open| ==> open[i].sector != open[j].sector
  }

  lemma OpenFacts(open: seq<Inode>, inode: Inode, disk: seq<Sector>, live: Live)
    requires OpenOk(open, disk, live) && inode in open
    ensures inode.sector in live && 0 <= inode.sector < |disk| && inode.data == Decode(disk[inode.sector])
    ensures inode.openCnt >= 1 && (inode.removed ==> inode.sector >= 2)
    ensures forall i, j :: 0 <= i < j < |open| ==> open[i].sector != open[j].sector
    ensures forall i :: 0 <= i < |open| ==>
      Mirrors(open[i], disk, live) && (open[i].sector == inode.sector ==> open[i] == inode)
  {
    hide Decode;
    var k :| 0 <= k < |open| && open[k] == inode;
    assert Mirrors(open[k], disk, live);
  }

  lemma OpenAgain(open: seq<Inode>, inode: Inode, disk: seq<Sector>, live: Live)
    requires forall i, j :: 0 <= i < j < |open| ==> open[i].sector != open[j].sector
    requires inode.openCnt >= 1 && inode.sector in live && 0 <= inode.sector < |disk|
    requires inode.data == Decode(disk[inode.sector]) && (inode.removed ==> inode.sector >= 2)
    requires forall i :: 0 <= i < |open| ==> (open[i].sector == inode.sector ==> open[i] == inode)
    requires forall i :: 0 <= i < |open| && open[i].sector != inode.sector ==> Mirrors(open[i], disk, live)
    ensures OpenOk(open, disk, live)
  {
    hide Decode;
  }

  /** File f, already live, has been written to, or writes to it were denied. */
  lemma TableWritten(d0: seq<Sector>, o0: Owner, d1: seq<Sector>, o1: Owner, live: Live, f: int, d: InodeDisk,
                     g: Layout, end: int)
    requires TableOk(d0, o0, live) && SystemRoles(o0) && f in live && Touched(d0, o0, d1, o1, f)
    requires FileOk(d1, o1, f, d, g) && live[f].data <= g.data && SectorsFor(end) <= DIRECT_NUM && 0 <= f < |d0|
    requires (g == live[f] && o1 == o0) ||
      (d.length == (if end > Decode(d0[f]).length then end else Decode(d0[f]).length) &&
        |o1| == |o0| + NewSectors(|live[f].data|, |g.data|))
    ensures TableOk(d1, o1, live[f := g]) && 0 <= f < |d1| && Decode(d1[f]) == d
  {
    hide FileMid, View, Decode;
    LiveFile(d0, o0, live, f);
    Sizes(d1, o1, f, d, g);
    InodeSector(d1, o1, f, d, g);
    TableWrite(d0, o0, d1, o1, live, f, d, g);
  }

  /** The bytes of live file h. */
  ghost function Contents(disk: seq<Sector>, live: Live, h: int): seq<Byte> {
    if h in live && 0 <= h < |disk| then View(disk, Decode(disk[h]), live[h]) else []
  }

  /** The contents of every live file but f are as they were. */
  ghost predicate OthersKept(d0: seq<Sector>, live: Live, d1: seq<Sector>, live': Live, f: int) {
    forall h :: h in live && h != f ==> Contents(d1, live', h) == Contents(d0, live, h)
  }

  lemma OthersKeep(d0: seq<Sector>, o0: Owner, d1: seq<Sector>, o1: Owner, live: Live, f: int, g: Layout)
    requires TableOk(d0, o0, live) && Touched(d0, o0, d1, o1, f)
    ensures OthersKept(d0, live, d1, live[f := g], f)
  {
    hide FileMid, View, Decode, Touched;
    forall h | h in live && h != f ensures Contents(d1, live[f := g], h) == Contents(d0, live, h) {
      assert SmallFile(d0, o0, h, live[h]);
      OtherFile(d0, o0, d1, o1, f, h, Decode(d0[h]), live[h]);
      MidDecodes(d1, o1, h, Decode(d0[h]), live[h]);
    }
  }

  class InodeTable {
    const fs: FileSys
    var open: seq<Inode>
    ghost var live: Live

    ghost predicate Valid()
      reads this, fs, fs.freeMap, fs.freeMap.bits, open
    {
      fs.Valid() && Sane(fs.disk) && TableOk(fs.disk, fs.owner, live) && OpenOk(open, fs.disk, live)
    }

    constructor (device: seq<Sector>)
      requires 2 <= |device| < 0x1_0000_0000 && Sane(device)
      ensures Valid() && live == map[] && open == []
    {
      fs := new FileSys(device);
      open, live := [], map[];
    }

    /** `free_map_allocate` for the inode, then `inode_create`. */
    method Create(length: int, isdir: bool) returns (f: int)
      requires Valid() && 0 <= length && SectorsFor(length) <= DIRECT_NUM
      requires |fs.owner| + 1 + SectorsFor(length) <= |fs.disk|
      modifies this, fs, fs.freeMap.bits
      ensures Valid() && open == old(open) && f !in old(live) && live.Keys == old(live).Keys + {f}
      ensures forall h :: h in old(live) ==> live[h] == old(live)[h]
      ensures |live[f].data| == SectorsFor(length)
      ensures Contents(fs.disk, live, f) == Zeros(length) && OthersKept(old(fs.disk), old(live), fs.disk, live, f)
    {
      hide Unpack, MapOk, FileMid, Decode, View, Words, Touched, TableOk, Sane, IndexBlocks;
      Roles(fs);
      ghost var d0, o0 := fs.disk, fs.owner;
      var s := fs.AllocInode();
      f := s.value;
      var ok;
      ghost var d, g;
      SmallGrowth(|fs.disk|, fs.owner, 0, length);
      ok, d, g := InodeCreate(fs, f, length, isdir);
      Sizes(fs.disk, fs.owner, f, d, g);
      TableCreate(d0, o0, fs.disk, fs.owner, live, f, d, g);
      TouchedLess(d0, o0, fs.disk, fs.owner, f);
      MirrorsStay(open, d0, o0, fs.disk, fs.owner, f, live, live[f := g]);
      OthersKeep(d0, o0, fs.disk, fs.owner, live, f, g);
      MidDecodes(fs.disk, fs.owner, f, d, g);
      live := live[f := g];
    }

    /** `inode_open`: opening a sector twice gives the same inode. */
    method InodeOpen(sector: int) returns (inode: Inode)
      requires Valid() && sector in live
      modifies this`open, open`openCnt
      ensures Valid() && inode in open && inode.sector == sector && fs.freeMap.All() == old(fs.freeMap.All())
      ensures if exists i :: i in old(open) && old(i.sector) == sector
        then open == old(open) && inode in old(open) && inode.openCnt == old(inode.openCnt) + 1
        else fresh(inode) && open == [inode] + old(open) && inode.openCnt == 1
    {
      hide Unpack, MapOk, FileMid, Decode, View, Words, Sane;
      var k := 0;
      while k < |open|
        invariant 0 <= k <= |open| && forall j :: 0 <= j < k ==> open[j].sector != sector
      {
        if open[k].sector == sector {
          inode := open[k];
          InodeReopen(inode);
          return;
        }
        k := k + 1;
      }
      assert SmallFile(fs.disk, fs.owner, sector, live[sector]);
      inode := new Inode(sector, Decode(fs.disk[sector]));
      open := [inode] + open;
    }

    method InodeReopen(inode: Inode)
      requires Valid() && inode in open
      modifies inode`openCnt
      ensures Valid() && inode.openCnt == old(inode.openCnt) + 1
    {
      hide Unpack, MapOk, FileMid, Decode, View, Words, Sane, TableOk;
      forall i | 0 <= i < |open| ensures Mirrors(open[i], fs.disk, live) {}
      inode.openCnt := inode.openCnt + 1;
    }

    /** `inode_remove`: the file goes when the last opener closes it. */
    method InodeRemove(inode: Inode)
      requires Valid() && inode in open && inode.sector >= 2
      modifies inode`removed
      ensures Valid() && inode.removed
    {
      hide Unpack, MapOk, FileMid, Decode, View, Words, Sane, TableOk;
      inode.removed := true;
    }

    /** `inode_write_at` to a file that stays within the direct blocks. */
    method Write(inode: Inode, buffer: seq<Byte>, offset: int) returns (written: int)
      requires Valid() && inode in open && offset >= 0 && SectorsFor(offset + |buffer|) <= DIRECT_NUM
      requires |fs.owner| + SectorsFor(offset + |buffer|) <= |fs.disk| + |live[inode.sector].data|
      modifies this`live, fs, fs.freeMap.bits, inode`data
      ensures Valid() && live.Keys == old(live).Keys && old(live)[inode.sector].data <= live[inode.sector].data
      ensures forall h :: h in live && h != inode.sector ==> live[h] == old(live)[h]
      ensures inode.denyWriteCnt == 0 ==>
        View(fs.disk, inode.data, live[inode.sector]) ==
        Overwrite(View(old(fs.disk), old(inode.data), old(live)[inode.sector]), offset, buffer)
      ensures OthersKept(old(fs.disk), old(live), fs.disk, live, inode.sector)
    {
      hide *;
      Parts();
      ghost var f, d0, o0 := inode.sector, fs.disk, fs.owner;
      OpenFacts(open, inode, d0, live);
      Roles(fs);
      LiveFile(d0, o0, live, f);
      SmallGrowth(|d0|, o0, |live[f].data|, offset + |buffer|);
      ghost var g;
      written, g := InodeWriteAt(fs, inode, buffer, offset, live[f]);
      TableWritten(d0, o0, fs.disk, fs.owner, live, f, inode.data, g, offset + |buffer|);
      MirrorsStay(open, d0, o0, fs.disk, fs.owner, f, live, live[f := g]);
      OthersKeep(d0, o0, fs.disk, fs.owner, live, f, g);
      live := live[f := g];
      OpenAgain(open, inode, fs.disk, live);
      Whole();
    }

    lemma Parts()
      requires Valid()
      ensures fs.Valid() && Sane(fs.disk) && TableOk(fs.disk, fs.owner, live) && OpenOk(open, fs.disk, live)
    {}

    lemma Whole()
      requires fs.Valid() && Sane(fs.disk) && TableOk(fs.disk, fs.owner, live) && OpenOk(open, fs.disk, live)
      ensures Valid()
    {}

    /** Takes an inode off the list of open inodes. */
    method Unlist(inode: Inode)
      requires inode in open && DistinctSectors(open)
      modifies this`open
      ensures inode !in open && (forall i :: i in open ==> i in old(open) && i.sector != inode.sector) &&
        DistinctSectors(open)
      ensures forall i :: i in old(open) && i != inode ==> i in open
    {
      var k :| 0 <= k < |open| && open[k] == inode;
      open := open[..k] + open[k + 1..];
    }

    /** The loop of `inode_close` that releases the direct blocks. */
    method ReleaseDirect(direct: seq<Word>, ghost f: int, ghost data: seq<int>)
      requires fs.Valid() && DirectOk(direct, data) && DataOwned(fs.owner, f, data) && |data| <= DIRECT_NUM
      requires forall k :: 0 <= k < |data| ==> data[k] >= 2
      modifies fs`owner, fs.freeMap.bits
      ensures fs.Valid() && fs.owner == old(fs.owner) - set k | 0 <= k < |data| :: data[k]
    {
      hide Unpack, MapOk, FileSys.Valid;
      ghost var gone: set<int> := {};
      var i := 0;
      while i < DIRECT_NUM && direct[i] != 0
        invariant 0 <= i <= |data| && fs.Valid()
        invariant gone == set k | 0 <= k < i :: data[k]
        invariant fs.owner == old(fs.owner) - gone
      {
        assert Owns(old(fs.owner), data[i], Data(f, i));
        assert forall k :: 0 <= k < i ==> data[k] != data[i];
        fs.FreeMapRelease(direct[i]);
        gone := gone + {data[i]};
        i := i + 1;
      }
      assert i == |data|;
    }

    /** The part of `inode_close` for a removed file that nobody has open any more. */
    method ReleaseFile(inode: Inode)
      requires Valid() && inode !in open && inode.sector in live && inode.sector >= 2
      requires 0 <= inode.sector < |fs.disk| && inode.data == Decode(fs.disk[inode.sector]) &&
        forall i :: i in open ==> i.sector != inode.sector
      modifies this`live, fs`owner, fs.freeMap.bits
      ensures Valid() && live == old(live) - {inode.sector}
    {
      hide Unpack, MapOk, FileMid, Decode, View, Words, Sane, TableOk, FileSys.Valid;
      ghost var f, o0 := inode.sector, fs.owner;
      ghost var g := live[f];
      CloseFacts(fs, live, f);
      fs.FreeMapRelease(inode.sector);
      ReleaseDirect(inode.data.direct, f, g.data);
      // the file is small, so there are no index blocks to release
      TableRelease(fs.disk, o0, fs.owner, live, f);
      live := live - {f};
      assert forall i :: 0 <= i < |open| ==> open[i] in open;
    }

    /** `inode_close`: the last close of a removed file releases its sectors; until
        then nothing is released. */
    method InodeClose(inode: Inode)
      requires Valid() && inode in open
      modifies this`open, this`live, inode`openCnt, fs`owner, fs.freeMap.bits
      ensures Valid() && inode.openCnt == old(inode.openCnt) - 1
      ensures old(inode.openCnt) > 1 ==> open == old(open)
      ensures old(inode.openCnt) == 1 ==> inode !in open && forall i :: i in old(open) && i != inode ==> i in open
      ensures live == if old(inode.openCnt) == 1 && inode.removed then old(live) - {inode.sector} else old(live)
      ensures old(inode.openCnt) > 1 || !inode.removed ==>
        fs.owner == old(fs.owner) && fs.freeMap.bits[..] == old(fs.freeMap.bits[..])
    {
      hide Unpack, MapOk, FileMid, Decode, View, Words, Sane, TableOk, FileSys.Valid;
      assert Mirrors(inode, fs.disk, live);
      inode.openCnt := inode.openCnt - 1;
      if inode.openCnt == 0 {
        Unlist(inode);
        assert forall i :: 0 <= i < |open| ==> open[i] in open;
        if inode.removed {
          ReleaseFile(inode);
        }
      }
    }
  }

  lemma LiveFile(disk: seq<Sector>, owner: Owner, live: Live, f: int)
    requires TableOk(disk, owner, live) && f in live
    ensures 0 <= f < |disk| && FileOk(disk, owner, f, Decode(disk[f]), live[f]) && |live[f].data| <= DIRECT_NUM
    ensures |live[f].data| == SectorsFor(Decode(disk[f]).length)
  {
    hide Decode, Raw, IndexOk;
    assert SmallFile(disk, owner, f, live[f]);
  }

  /** The free map is restored bit for bit whenever the live files are again what
      they were: in particular when a file is created, written to, removed and closed. */
  twostate lemma MapRestored(t: InodeTable)
    requires old(t.Valid()) && t.Valid() && t.live == old(t.live) && |t.fs.disk| == |old(t.fs.disk)|
    ensures t.fs.freeMap.bits[..] == old(t.fs.freeMap.bits[..])
  {
    MapFromLive(old(t.fs.freeMap.All()), old(t.fs.owner), old(t.fs.disk),
                t.fs.freeMap.All(), t.fs.owner, t.fs.disk, t.live, |t.fs.disk|);
    UnpackInjective(old(t.fs.freeMap.bits[..]), t.fs.freeMap.bits[..]);
  }

  /** A small live file whose inode is not a system inode. */
  lemma CloseFacts(fs: FileSys, live: Live, f: int)
    requires fs.Valid() && TableOk(fs.disk, fs.owner, live) && f in live && f >= 2
    ensures f in fs.owner && 0 <= f < |fs.disk|
    ensures var d := Decode(fs.disk[f]); DirectOk(d.direct, live[f].data) && d.indirect == 0 && d.doubleIndirect == 0
    ensures |live[f].data| <= DIRECT_NUM && DataOwned(fs.owner - {f}, f, live[f].data)
    ensures forall k :: 0 <= k < |live[f].data| ==> live[f].data[k] >= 2
    ensures forall o: Owner, s: set<int> :: o - {f} - s == o - ({f} + s)
  {
    hide Raw, Decode, Words;
    assert SmallFile(fs.disk, fs.owner, f, live[f]);
    forall k | 0 <= k < |live[f].data| ensures live[f].data[k] >= 2 &&
      Owns(fs.owner - {f}, live[f].data[k], Data(f, k)) {
      assert Owns(fs.owner, live[f].data[k], Data(f, k));
    }
  }

  lemma Roles(fs: FileSys)
    requires fs.Valid()
    ensures SystemRoles(fs.owner)
  {}

  lemma TouchedLess(d0: seq<Sector>, o0: Owner, d1: seq<Sector>, o1: Owner, f: int)
    requires f !in o0 && Touched(d0, o0[f := InodeOf(f)], d1, o1, f)
    ensures Touched(d0, o0, d1, o1, f)
  {
    var o := o0[f := InodeOf(f)];
    assert forall s :: s in o0 ==> s in o && o[s] == o0[s];
  }

  lemma Sizes(disk: seq<Sector>, owner: Owner, f: int, d: InodeDisk, g: Layout)
    requires FileOk(disk, owner, f, d, g)
    ensures |g.data| == SectorsFor(d.length)
    ensures |g.data| <= DIRECT_NUM ==> forall n :: 0 <= n <= |g.data| ==> NewSectors(n, |g.data|) == |g.data| - n
  {}

  lemma SmallGrowth(n: int, owner: Owner, have: int, newLength: int)
    requires 0 <= have <= DIRECT_NUM && 0 <= newLength && SectorsFor(newLength) <= DIRECT_NUM
    requires |owner| + SectorsFor(newLength) <= n + have
    ensures CanGrow(n, owner, have, newLength)
  {}
}
