/** Indexed files (filesys/inode.c, filesys/free-map.c). */
module FileSystem {
  import opened Options
  import opened Bitmaps
  import opened Sectors

  const FREE_MAP_SECTOR := 0
  const ROOT_DIR_SECTOR := 1
  const SINGLE_END := 138               // DIRECT_NUM + SLOTS
  const CLEARED := 32                   // slots of a new index block that the memset clears
  const LIMIT := 4234                   // SINGLE_END + CLEARED * SLOTS
  const MAX_SECTORS := 16522            // SINGLE_END + SLOTS * SLOTS
  const NO_SECTOR := 0xFFFF_FFFF

  /** What a sector in use is used for. */
  datatype Role =
    | InodeOf(file: int)
    | Data(file: int, k: int)
    | Single(file: int)
    | Double(file: int)
    | Inner(file: int, j: int)

  type Owner = map<int, Role>

  ghost predicate Owns(owner: Owner, s: int, r: Role) {
    s in owner && owner[s] == r
  }

  /** The data sectors of file f, in order. A sector has one role, so this alone
      says that they differ from each other and from everything else in use. */
  ghost predicate DataOwned(owner: Owner, f: int, data: seq<int>) {
    forall k :: 0 <= k < |data| ==> Owns(owner, data[k], Data(f, k))
  }

  /** The free map marks exactly the sectors in use. */
  ghost predicate MapOk(used: seq<bool>, n: int, owner: Owner) {
    && 2 <= n <= |used|
    && (forall s :: s in owner ==> 0 <= s < n)
    && (forall s :: 0 <= s < n ==> (used[s] <==> s in owner))
    && Owns(owner, FREE_MAP_SECTOR, InodeOf(FREE_MAP_SECTOR))
    && Owns(owner, ROOT_DIR_SECTOR, InodeOf(ROOT_DIR_SECTOR))
  }

  // ----- growth of one file -----

  /** Which sectors already in use a growth step of file f may rewrite. */
  datatype Exempt = Nothing | Only(role: Role) | Doubles | Index

  ghost predicate Covers(e: Exempt, f: int, r: Role) {
    match e
    case Nothing => false
    case Only(role) => r == role
    case Doubles => r.file == f && (r.Double? || r.Inner?)
    case Index => r.file == f && (r.Single? || r.Double? || r.Inner?)
  }

  /** o1 keeps everything in o0; what it adds belongs to file f. */
  ghost predicate Extends(o0: Owner, o1: Owner, f: int) {
    && (forall s :: s in o0 ==> Owns(o1, s, o0[s]))
    && (forall s :: s in o1 && s !in o0 ==> o1[s].file == f)
  }

  /** d1 agrees with d0 on the sectors in use, except those exempted. */
  ghost predicate Kept(d0: seq<Sector>, d1: seq<Sector>, o0: Owner, f: int, e: Exempt) {
    && |d0| == |d1|
    && forall s :: s in o0 && !Covers(e, f, o0[s]) && 0 <= s < |d0| ==> d1[s] == d0[s]
  }

  ghost predicate Zeroed(disk: seq<Sector>, data: seq<int>, from: int) {
    forall k :: 0 <= from <= k < |data| && 0 <= data[k] < |disk| ==> disk[data[k]] == Zeros(SECTOR_SIZE)
  }

  /** From (d0, o0) to (d1, o1) file f has grown from data0 to data1: the new
      sectors are zero, nothing else in use has changed except what is exempted. */
  ghost predicate Growing(d0: seq<Sector>, o0: Owner, d1: seq<Sector>, o1: Owner,
                          f: int, data0: seq<int>, data1: seq<int>, e: Exempt)
  {
    && Extends(o0, o1, f) && Kept(d0, d1, o0, f, e)
    && data0 <= data1 && DataOwned(o1, f, data1) && Zeroed(d1, data1, |data0|)
  }

  lemma GrowNone(d: seq<Sector>, o: Owner, f: int, data: seq<int>, e: Exempt)
    requires DataOwned(o, f, data)
    ensures Growing(d, o, d, o, f, data, data, e)
  {}

  lemma GrowData(d0: seq<Sector>, o0: Owner, d1: seq<Sector>, o1: Owner,
                 f: int, data0: seq<int>, data1: seq<int>, e: Exempt, s: int)
    requires Growing(d0, o0, d1, o1, f, data0, data1, e)
    requires s !in o1 && 0 <= s < |d1|
    ensures Growing(d0, o0, d1[s := Zeros(SECTOR_SIZE)], o1[s := Data(f, |data1|)], f, data0, data1 + [s], e)
  {
    hide Zeros;
  }

  lemma GrowTwice(d0: seq<Sector>, o0: Owner, d1: seq<Sector>, o1: Owner, d2: seq<Sector>, o2: Owner,
                  f: int, data0: seq<int>, data1: seq<int>, data2: seq<int>, e: Exempt, e1: Exempt, e2: Exempt)
    requires Growing(d0, o0, d1, o1, f, data0, data1, e1) && Growing(d1, o1, d2, o2, f, data1, data2, e2)
    requires forall r :: Covers(e1, f, r) || Covers(e2, f, r) ==> Covers(e, f, r)
    requires forall r :: Covers(e2, f, r) ==> !r.Data?
    ensures Growing(d0, o0, d2, o2, f, data0, data2, e)
  {
    hide Covers, Zeros;
    assert forall k :: 0 <= k < |data1| ==> data2[k] == data1[k];
    assert forall s :: s in o0 ==> s in o1 && o1[s] == o0[s];
  }

  lemma GrowMore(d0: seq<Sector>, o0: Owner, d1: seq<Sector>, o1: Owner,
                 f: int, data0: seq<int>, data1: seq<int>, e: Exempt, e': Exempt)
    requires Growing(d0, o0, d1, o1, f, data0, data1, e) && forall r :: Covers(e, f, r) ==> Covers(e', f, r)
    ensures Growing(d0, o0, d1, o1, f, data0, data1, e')
  {
    hide Covers;
  }

  lemma GrowOwned(d0: seq<Sector>, o0: Owner, d1: seq<Sector>, o1: Owner,
                  f: int, data0: seq<int>, data1: seq<int>, e: Exempt)
    requires Growing(d0, o0, d1, o1, f, data0, data1, e)
    ensures DataOwned(o1, f, data1) && |d0| == |d1| && data0 <= data1
    ensures |data0| == |data1| ==> data0 == data1
    ensures forall s :: s in o0 ==> Owns(o1, s, o0[s])
  {}

  /** A new index block joins the sectors in use. */
  lemma GrowBlock(d0: seq<Sector>, o0: Owner, f: int, data: seq<int>, block: int, role: Role)
    requires DataOwned(o0, f, data) && block !in o0 && role.file == f
    ensures Growing(d0, o0, d0, o0[block := role], f, data, data, Only(role))
  {}

  /** An index block is written. */
  lemma WriteBlock(d0: seq<Sector>, o0: Owner, f: int, data: seq<int>, block: int, role: Role, x: Sector)
    requires DataOwned(o0, f, data) && Owns(o0, block, role) && 0 <= block < |d0| && !role.Data?
    ensures Growing(d0, o0, d0[block := x], o0, f, data, data, Only(role))
  {}

  // ----- the index of a file -----

  ghost predicate DirectOk(direct: seq<Word>, data: seq<int>) {
    && |direct| == DIRECT_NUM
    && forall k :: 0 <= k < DIRECT_NUM ==> direct[k] == if k < |data| then data[k] else 0
  }

  /** An index block holds the data sectors from number base on; beyond them, the
      entries that a fresh block clears are zero. */
  ghost predicate SlotsOk(words: seq<Word>, data: seq<int>, base: int)
    requires |words| == SLOTS && base >= 0
  {
    && (forall i :: 0 <= i < SLOTS && base + i < |data| ==> words[i] == data[base + i])
    && (forall i :: 0 <= i < CLEARED && base + i >= |data| ==> words[i] == 0)
  }

  ghost predicate BlockOk(disk: seq<Sector>, owner: Owner, block: int, role: Role, data: seq<int>, base: int)
    requires base >= 0
  {
    Owns(owner, block, role) && 0 < block < |disk| && SlotsOk(Words(disk[block]), data, base)
  }

  ghost predicate InnerOk(disk: seq<Sector>, owner: Owner, f: int, outer: seq<Word>, data: seq<int>, inner: seq<int>,
                          j: int)
    requires 0 <= j < |inner| && |outer| == SLOTS && |inner| <= SLOTS
  {
    outer[j] == inner[j] && BlockOk(disk, owner, inner[j], Inner(f, j), data, SINGLE_END + SLOTS * j)
  }

  /** The words of the double-indirect block lead to the data sectors from number
      138 on, 128 for each inner block; the next slots that a fresh block clears
      are zero. */
  ghost predicate OuterOk(disk: seq<Sector>, owner: Owner, f: int, outer: seq<Word>, data: seq<int>, inner: seq<int>) {
    && |outer| == SLOTS && |inner| <= CLEARED
    && |data| <= SINGLE_END + SLOTS * |inner|
    && (inner != [] ==> SINGLE_END + SLOTS * (|inner| - 1) < |data|)
    && (forall j :: 0 <= j < |inner| ==> InnerOk(disk, owner, f, outer, data, inner, j))
    && (forall j :: |inner| <= j < CLEARED ==> outer[j] == 0)
  }

  /** The number of inner blocks of a file with n data sectors. */
  function InnerCount(n: int): int {
    if n <= SINGLE_END then 0 else (n - SINGLE_END + SLOTS - 1) / SLOTS
  }

  lemma OuterCount(disk: seq<Sector>, owner: Owner, f: int, outer: seq<Word>, data: seq<int>, inner: seq<int>)
    requires OuterOk(disk, owner, f, outer, data, inner) && |data| >= SINGLE_END
    ensures |inner| == InnerCount(|data|) && |outer| == SLOTS
  {}

  /** The slot that the next data sector of the double-indirect range goes to. */
  lemma OuterSlot(disk: seq<Sector>, owner: Owner, f: int, outer: seq<Word>, data: seq<int>, inner: seq<int>, c: int)
    requires OuterOk(disk, owner, f, outer, data, inner)
    requires SINGLE_END <= |data| < LIMIT && c == (|data| - SINGLE_END) / SLOTS
    ensures 0 <= c < CLEARED
    ensures outer[c] == 0 ==> c == |inner| && (|data| - SINGLE_END) % SLOTS == 0
    ensures outer[c] != 0 ==>
      c == |inner| - 1 && BlockOk(disk, owner, outer[c], Inner(f, c), data, SINGLE_END + SLOTS * c)
  {
    if c < |inner| { assert InnerOk(disk, owner, f, outer, data, inner, c); }
  }

  /** One round of the loop of `double_indirect_block_allocate`: inner block number
      c is created or continued, the full ones before it stay as they are. */
  lemma OuterStep(d0: seq<Sector>, o0: Owner, d1: seq<Sector>, o1: Owner, f: int, outer: seq<Word>,
                  data: seq<int>, data': seq<int>, inner: seq<int>, c: int, block: Word)
    requires OuterOk(d0, o0, f, outer, data, inner)
    requires c == (|data| - SINGLE_END) / SLOTS && SINGLE_END <= |data| && c < CLEARED
    requires Growing(d0, o0, d1, o1, f, data, data', Only(Inner(f, c)))
    requires |data'| > |data| && |data'| <= SINGLE_END + SLOTS * (c + 1)
    requires BlockOk(d1, o1, block, Inner(f, c), data', SINGLE_END + SLOTS * c)
    requires outer[c] != 0 ==> block == outer[c]
    ensures OuterOk(d1, o1, f, outer[c := block], data', if c == |inner| then inner + [block] else inner)
  {
    var outer', inner' := outer[c := block], if c == |inner| then inner + [block] else inner;
    OuterSlot(d0, o0, f, outer, data, inner, c);
    if c < |inner| { assert InnerOk(d0, o0, f, outer, data, inner, c); }
    forall j | 0 <= j < |inner'| ensures InnerOk(d1, o1, f, outer', data', inner', j) {
      if j != c {
        assert InnerOk(d0, o0, f, outer, data, inner, j);
        SlotsStay(Words(d0[inner[j]]), data, data', SINGLE_END + SLOTS * j);
      }
    }
  }

  /** A full index block does not notice growth. */
  lemma SlotsStay(words: seq<Word>, data: seq<int>, data': seq<int>, base: int)
    requires |words| == SLOTS && base >= 0 && SlotsOk(words, data, base) && data <= data' && base + SLOTS <= |data|
    ensures SlotsOk(words, data', base)
  {}

  lemma OuterWrite(disk: seq<Sector>, owner: Owner, f: int, outer: seq<Word>, data: seq<int>, inner: seq<int>, s: int,
                   x: Sector)
    requires OuterOk(disk, owner, f, outer, data, inner) && Owns(owner, s, Double(f)) && 0 <= s < |disk|
    ensures OuterOk(disk[s := x], owner, f, outer, data, inner)
  {
    hide Words, SlotsOk;
    var disk' := disk[s := x];
    forall j | 0 <= j < |inner| ensures InnerOk(disk', owner, f, outer, data, inner, j) {
      assert InnerOk(disk, owner, f, outer, data, inner, j);
    }
  }

  ghost predicate SingleOk(disk: seq<Sector>, owner: Owner, f: int, block: int, data: seq<int>) {
    if |data| <= DIRECT_NUM then block == 0 else BlockOk(disk, owner, block, Single(f), data, DIRECT_NUM)
  }

  ghost predicate DoubleOk(disk: seq<Sector>, owner: Owner, f: int, block: int, data: seq<int>, inner: seq<int>) {
    if |data| <= SINGLE_END then block == 0 && inner == [] else
      Owns(owner, block, Double(f)) && 0 < block < |disk| && OuterOk(disk, owner, f, Words(disk[block]), data, inner)
  }

  /** The three levels of the index of an inode lead to the data sectors. */
  ghost predicate IndexOk(disk: seq<Sector>, owner: Owner, f: int, d: InodeDisk, data: seq<int>, inner: seq<int>) {
    && DirectOk(d.direct, data)
    && SingleOk(disk, owner, f, d.indirect, data)
    && DoubleOk(disk, owner, f, d.doubleIndirect, data, inner)
  }

  /** A file has at most as many sectors as the cleared slots lead to. */
  lemma DoubleBound(disk: seq<Sector>, owner: Owner, f: int, block: int, data: seq<int>, inner: seq<int>)
    requires DoubleOk(disk, owner, f, block, data, inner)
    ensures |data| <= LIMIT
  {
    hide InnerOk, Words;
  }

  lemma DirectStays(direct: seq<Word>, data: seq<int>, data': seq<int>)
    requires DirectOk(direct, data) && data <= data' && (|data| >= DIRECT_NUM || data == data')
    ensures DirectOk(direct, data')
  {}

  /** The single-indirect block does not notice growth of the double-indirect range. */
  lemma SingleStays(d0: seq<Sector>, o0: Owner, d1: seq<Sector>, o1: Owner, f: int, block: int, data: seq<int>,
                    data': seq<int>)
    requires SingleOk(d0, o0, f, block, data) && |data| >= SINGLE_END
    requires Growing(d0, o0, d1, o1, f, data, data', Doubles)
    ensures SingleOk(d1, o1, f, block, data')
  {
    SlotsStay(Words(d0[block]), data, data', DIRECT_NUM);
  }

  /** `bytes_to_sectors` */
  function SectorsFor(length: int): int {
    (length + SECTOR_SIZE - 1) / SECTOR_SIZE
  }

  /** Index blocks of a file with n data sectors. */
  function IndexBlocks(n: int): int {
    (if n > DIRECT_NUM then 1 else 0) + (if n > SINGLE_END then 1 else 0) + InnerCount(n)
  }

  /** `sector_allocate` computes the share of the single-indirect block without
      looking at how full that block already is. */
  predicate GrowthSafe(n: int, add: int) {
    !(DIRECT_NUM < n < SINGLE_END && n + add > SINGLE_END)
  }

  /** How many of `add` sectors the loop over the direct blocks takes, for a file of n sectors. */
  function DirectShare(n: int, add: int): int {
    if n >= DIRECT_NUM then 0 else if add < DIRECT_NUM - n then add else DIRECT_NUM - n
  }

  /** How many `sector_allocate` hands to the single-indirect block, whatever is in it already. */
  function SingleSectors(add: int): int { if add > SLOTS then SLOTS else add }

  /** The first and the end slot of the single-indirect block that are written when
      `add` sectors are left to add to n; none when they are equal. */
  function SingleSlots(n: int, add: int): (int, int) {
    if add > 0 && n < SINGLE_END then (n - DIRECT_NUM, n - DIRECT_NUM + SingleSectors(add)) else (0, 0)
  }

  /** The same for all of `sector_allocate`, direct blocks included. */
  function SingleShare(n: int, add: int): (int, int) { SingleSlots(n + DirectShare(n, add), add - DirectShare(n, add)) }

  /** The buffer of 128 slots is overrun exactly by the growth steps that start
      strictly inside the single-indirect range and end beyond it. */
  lemma SingleShareFits(n: int, add: int)
    requires 0 <= n && 0 <= add
    ensures SingleShare(n, add).1 <= SLOTS <==> GrowthSafe(n, add)
  {}

  /** Growing a file of 11 sectors by 128 writes slots 1 to 128 of a block with slots 0 to 127. */
  lemma SingleShareOverruns()
    ensures SingleShare(11, 128) == (1, 129) && !GrowthSafe(11, 128)
  {}

  /** A new index block's buffer: memset is given 128 bytes, not 128 entries. */
  ghost predicate PartlyCleared(buffer: seq<Word>) {
    |buffer| == SLOTS && forall j :: 0 <= j < CLEARED ==> buffer[j] == 0
  }

  /** An entry of a new index block is sure to be 0 exactly if it is one of the first 32. */
  lemma ClearedExactly(j: int)
    requires 0 <= j < SLOTS
    ensures (forall buffer :: PartlyCleared(buffer) ==> buffer[j] == 0) <==> j < CLEARED
  {
    if j >= CLEARED {
      var buffer := seq(SLOTS, k => if k == j then 1 else 0);
      assert PartlyCleared(buffer) && buffer[j] == 1;
    }
  }

  /** The number of sectors when `sector_allocate` comes to the double-indirect block. */
  function BeforeDouble(n: int): int { if n < SINGLE_END then SINGLE_END else n }

  /** The last of n sectors is in an inner block whose entry a new double-indirect block does not clear. */
  predicate FollowsUncleared(n: int) { (n - 1 - SINGLE_END) / SLOTS >= CLEARED }

  /** The double-indirect slot that leads to a file's last sector is a cleared one exactly up to LIMIT sectors. */
  lemma LimitIsCleared(n: int)
    requires n > SINGLE_END
    ensures FollowsUncleared(n) <==> n > LIMIT
  {}

  /** The double-indirect slot of sector number 4235 need not be zero in a new block. */
  lemma SlotNotCleared() returns (buffer: seq<Word>)
    ensures PartlyCleared(buffer) && buffer[(4235 - 1 - SINGLE_END) / SLOTS] != 0
  {
    buffer := seq(SLOTS, k => if k < CLEARED then 0 else 1);
  }

  /** What `sector_allocate` comes to.  Overrun is a write past an index block's buffer,
      after which C promises nothing; Uncleared is a growth that takes an entry which
      nobody wrote for the number of an index block. */
  datatype Outcome = Allocated | TooBig | Overrun | Uncleared

  // ----- counting -----

  lemma FreeSectorExists(owner: Owner, n: nat)
    requires forall s :: 0 <= s < n ==> s in owner
    ensures |owner| >= n
  {
    var all := CardinalityOfRange(n);
    assert forall s :: s in all ==> s in owner;
    SubsetSize(all, owner.Keys);
  }

  lemma OwnerFits(used: seq<bool>, n: int, owner: Owner)
    requires MapOk(used, n, owner)
    ensures |owner| <= n
  {
    var all := CardinalityOfRange(n);
    assert forall s :: s in owner ==> s in all;
    SubsetSize(owner.Keys, all);
  }

  lemma SubsetSize(a: set<int>, b: set<int>)
    requires a <= b
    ensures |a| <= |b|
  {
    assert b == a + (b - a);
  }

  lemma {:induction false} CardinalityOfRange(n: nat) returns (all: set<int>)
    ensures |all| == n && forall s :: s in all <==> 0 <= s < n
  {
    if n == 0 {
      all := {};
    } else {
      var r := CardinalityOfRange(n - 1);
      all := r + {n - 1};
    }
  }

  lemma MapOkAlloc(used: seq<bool>, n: int, owner: Owner, s: int, role: Role)
    requires MapOk(used, n, owner) && 0 <= s < n && s !in owner
    ensures MapOk(used[s := true], n, owner[s := role])
    ensures |owner[s := role]| == |owner| + 1
  {
    assert owner[s := role].Keys == owner.Keys + {s};
  }

  lemma InUse(used: seq<bool>, n: int, owner: Owner, s: int)
    requires MapOk(used, n, owner) && s in owner
    ensures 0 <= s < n
  {}

  lemma MapOkRelease(used: seq<bool>, n: int, owner: Owner, s: int)
    requires MapOk(used, n, owner) && s in owner && s >= 2
    ensures 0 <= s < n && MapOk(used[s := false], n, owner - {s})
  {}

  class FileSys {
    var disk: seq<Sector>
    const freeMap: Bitmap
    ghost const padding: seq<bool>        // the bits of the last word that are not used
    ghost var owner: Owner

    ghost predicate Valid()
      reads this, freeMap, freeMap.bits
    {
      && freeMap.Valid() && |disk| == freeMap.bitCnt && |disk| < 0x1_0000_0000
      && MapOk(freeMap.All(), |disk|, owner) && freeMap.All()[freeMap.bitCnt..] == padding
    }

    /** `free_map_init` on a device with the given sectors: only the two system
        inodes are in use. */
    constructor (device: seq<Sector>)
      requires 2 <= |device| < 0x1_0000_0000
      ensures Valid() && disk == device && fresh(freeMap) && fresh(freeMap.bits)
      ensures owner == map[FREE_MAP_SECTOR := InodeOf(FREE_MAP_SECTOR), ROOT_DIR_SECTOR := InodeOf(ROOT_DIR_SECTOR)]
    {
      disk := device;
      var b := new Bitmap(|device|);
      freeMap := b;
      padding := b.All()[b.bitCnt..];
      owner := map[FREE_MAP_SECTOR := InodeOf(FREE_MAP_SECTOR), ROOT_DIR_SECTOR := InodeOf(ROOT_DIR_SECTOR)];
      new;
      freeMap.Mark(FREE_MAP_SECTOR);
      freeMap.Mark(ROOT_DIR_SECTOR);
    }

    /** `free_map_allocate` of one sector: the lowest free one is marked. */
    method FreeMapAllocate() returns (r: Option<Word>)
      requires Valid()
      modifies freeMap.bits
      ensures r.None? ==> freeMap.All() == old(freeMap.All()) && |owner| >= |disk|
      ensures r.Some? ==>
        1 < r.value < |disk| && r.value !in owner && freeMap.All() == old(freeMap.All())[r.value := true]
      ensures r.Some? ==> forall s :: 0 <= s < r.value ==> s in owner
    {
      ghost var b := freeMap.All();
      var i := freeMap.ScanAndFlip(0, 1, false);
      if i.None? {
        forall s | 0 <= s < |disk| ensures s in owner { assert !Uniform(b, s, 1, false); }
        FreeSectorExists(owner, |disk|);
        return None;
      }
      forall s | 0 <= s < i.value ensures s in owner { assert !Uniform(b, s, 1, false); }
      assert !b[i.value];
      assert freeMap.All() == b[i.value := true];
      return Some(i.value);
    }

    /** A new sector for the given role. */
    method AllocSector(ghost role: Role) returns (r: Option<Word>)
      requires Valid()
      modifies this`owner, freeMap.bits
      ensures Valid()
      ensures r.None? ==> owner == old(owner) && |owner| >= |disk|
      ensures r.Some? ==> 1 < r.value < |disk| && r.value !in old(owner) && owner == old(owner)[r.value := role]
      ensures r.Some? ==> |owner| == |old(owner)| + 1
      ensures r.Some? ==> forall s :: 0 <= s < r.value ==> s in old(owner)
    {
      hide Unpack, MapOk;
      ghost var b := freeMap.All();
      r := FreeMapAllocate();
      if r.Some? {
        MapOkAlloc(b, |disk|, owner, r.value, role);
        owner := owner[r.value := role];
      }
    }

    /** A new sector for the inode of a new file. */
    method AllocInode() returns (r: Option<Word>)
      requires Valid()
      modifies this`owner, freeMap.bits
      ensures Valid()
      ensures r.None? ==> owner == old(owner) && |owner| >= |disk|
      ensures r.Some? ==>
        1 < r.value < |disk| && r.value !in old(owner) && owner == old(owner)[r.value := InodeOf(r.value)]
      ensures r.Some? ==> |owner| == |old(owner)| + 1
      ensures r.Some? ==> forall s :: 0 <= s < r.value ==> s in old(owner)
    {
      hide Unpack, MapOk;
      ghost var b := freeMap.All();
      r := FreeMapAllocate();
      if r.Some? {
        MapOkAlloc(b, |disk|, owner, r.value, InodeOf(r.value));
        owner := owner[r.value := InodeOf(r.value)];
      }
    }

    /** `free_map_release` of one sector. */
    method FreeMapRelease(s: int)
      requires Valid() && s in owner && s >= 2
      modifies this`owner, freeMap.bits
      ensures Valid() && owner == old(owner) - {s} && s < |disk|
    {
      hide Unpack, MapOk;
      ghost var b := freeMap.All();
      MapOkRelease(b, |disk|, owner, s);
      freeMap.SetMultiple(s, 1, false);
      assert freeMap.All() == b[s := false];
      owner := owner - {s};
    }

    method BlockWrite(s: int, x: Sector)
      requires Valid() && 0 <= s < |disk|
      modifies this`disk
      ensures Valid() && disk == old(disk)[s := x]
    {
      disk := disk[s := x];
    }

    /** A new data sector of file f, written with zeros. */
    method AllocData(ghost f: int, ghost k: int) returns (s: Word)
      requires Valid() && |owner| < |disk|
      modifies this, freeMap.bits
      ensures Valid() && s < |disk| && s !in old(owner)
      ensures owner == old(owner)[s := Data(f, k)] && |owner| == |old(owner)| + 1
      ensures disk == old(disk)[s := Zeros(SECTOR_SIZE)]
    {
      var r := AllocSector(Data(f, k));
      s := r.value;
      BlockWrite(s, Zeros(SECTOR_SIZE));
    }

    /** The loop of `indirect_block_allocate`: new sectors for the slots
        current .. current + add of the index block held in the buffer. */
    method FillSlots(current0: int, add0: int, buffer0: seq<Word>,
                     ghost f: int, ghost data: seq<int>, ghost base: int)
      returns (buffer: seq<Word>, ghost data': seq<int>)
      requires Valid() && base >= 0 && add0 >= 0 && |data| == base + current0 && 0 <= current0 &&
        current0 + add0 <= SLOTS
      requires DataOwned(owner, f, data)
      requires |buffer0| == SLOTS && SlotsOk(buffer0, data, base)
      requires |owner| + add0 <= |disk|
      modifies this, freeMap.bits
      ensures Valid() && |owner| == |old(owner)| + add0
      ensures |data'| == |data| + add0
      ensures |buffer| == SLOTS && SlotsOk(buffer, data', base)
      ensures Growing(old(disk), old(owner), disk, owner, f, data, data', Nothing)
    {
      GrowNone(disk, owner, f, data, Nothing);
      hide Growing, Zeros, DataOwned, Words, FileSys.Valid;
      var current, add := current0, add0;
      buffer, data' := buffer0, data;
      while add > 0
        invariant 0 <= add && current0 <= current && current + add == current0 + add0 && |data'| == base + current
        invariant |buffer| == SLOTS && SlotsOk(buffer, data', base)
        invariant Valid() && |disk| == |old(disk)| && |owner| + add == |old(owner)| + add0
        invariant Growing(old(disk), old(owner), disk, owner, f, data, data', Nothing)
      {
        ghost var d1, o1 := disk, owner;
        var s := AllocData(f, |data'|);
        GrowData(old(disk), old(owner), d1, o1, f, data, data', Nothing, s);
        buffer, data' := buffer[current := s], data' + [s];
        add, current := add - 1, current + 1;
      }
    }

    /** What an automatic array holds before it is written: anything. */
    method Uninitialized() returns (b: seq<Word>)
      ensures |b| == SLOTS
    {
      var z: seq<Word> := seq(SLOTS, _ => 0);
      assert |z| == SLOTS;
      b :| |b| == SLOTS;
    }

    /** The block of an index and the buffer that holds it: a new block with a buffer
        of which the memset cleared 128 bytes, or the one on disk. */
    method OpenBlock(block0: Word, ghost role: Role) returns (block: Word, buffer: seq<Word>)
      requires Valid() && (block0 != 0 ==> Owns(owner, block0, role))
      requires block0 == 0 ==> |owner| < |disk|
      modifies this`owner, freeMap.bits
      ensures Valid() && 0 < block < |disk| && Owns(owner, block, role) && |buffer| == SLOTS
      ensures block0 == 0 ==> block !in old(owner) && owner == old(owner)[block := role] && |owner| == |old(owner)| + 1
      ensures block0 == 0 ==> PartlyCleared(buffer)
      ensures block0 != 0 ==> block == block0 && owner == old(owner) && buffer == Words(disk[block])
    {
      hide MapOk, Words, Unpack;
      var junk := Uninitialized();
      buffer := seq(CLEARED, _ => 0) + junk[CLEARED..];
      if block0 == 0 {
        var b := AllocSector(role);
        block := b.value;
      } else {
        InUse(freeMap.All(), |disk|, owner, block0);
        block := block0;
        buffer := Words(disk[block]);
      }
    }

    /** `indirect_block_allocate`: fills slots current .. current + add of an index
        block with new zeroed sectors. */
    method IndirectBlockAllocate(current: int, add: int, block0: Word,
                                 ghost f: int, ghost role: Role, ghost data: seq<int>, ghost base: int)
      returns (block: Word, ghost data': seq<int>)
      requires Valid() && base >= 0 && add >= 0 && |data| == base + current && 0 <= current && current + add <= SLOTS
      requires role.file == f && !role.Data? && DataOwned(owner, f, data)
      requires if block0 == 0 then current == 0 else BlockOk(disk, owner, block0, role, data, base)
      requires |owner| + add + (if block0 == 0 then 1 else 0) <= |disk|
      modifies this, freeMap.bits
      ensures Valid()
      ensures |owner| == |old(owner)| + add + (if block0 == 0 then 1 else 0)
      ensures block0 != 0 ==> block == block0
      ensures block0 == 0 ==> block !in old(owner)
      ensures |data'| == |data| + add && BlockOk(disk, owner, block, role, data', base)
      ensures Growing(old(disk), old(owner), disk, owner, f, data, data', Only(role))
    {
      hide Growing, MapOk, Words, Pack, FileSys.Valid;
      ghost var d0, o0 := disk, owner;
      var buffer;
      block, buffer := OpenBlock(block0, role);
      ghost var d1, o1 := disk, owner;
      if block0 == 0 { GrowBlock(d0, o0, f, data, block, role); } else { GrowNone(d0, o0, f, data, Only(role)); }
      GrowOwned(d0, o0, d1, o1, f, data, data, Only(role));
      buffer, data' := FillSlots(current, add, buffer, f, data, base);
      GrowOwned(d1, o1, disk, owner, f, data, data', Nothing);
      GrowTwice(d0, o0, d1, o1, disk, owner, f, data, data, data', Only(role), Only(role), Nothing);
      ghost var d2 := disk;
      WordsPack(buffer);
      WriteBlock(d2, owner, f, data', block, role, Pack(buffer));
      BlockWrite(block, Pack(buffer));
      GrowTwice(d0, o0, d2, owner, disk, owner, f, data, data', data', Only(role), Only(role), Only(role));
    }

    /** One round of the loop of `double_indirect_block_allocate`. */
    method OuterRound(current: int, add: int, outer0: seq<Word>, ghost f: int, ghost data: seq<int>,
                      ghost inner: seq<int>)
      returns (sectors: int, outer: seq<Word>, ghost data': seq<int>, ghost inner': seq<int>)
      requires Valid() && add > 0 && current == |data| - SINGLE_END >= 0 && |data| + add <= LIMIT
      requires DataOwned(owner, f, data) && OuterOk(disk, owner, f, outer0, data, inner) && |outer0| == SLOTS
      requires |owner| + add + InnerCount(|data| + add) - |inner| <= |disk|
      modifies this, freeMap.bits
      ensures Valid() && 0 < sectors <= add && |data'| == |data| + sectors
      ensures |owner| == |old(owner)| + sectors + |inner'| - |inner|
      ensures OuterOk(disk, owner, f, outer, data', inner') && |outer| == SLOTS
      ensures Growing(old(disk), old(owner), disk, owner, f, data, data', Only(Inner(f, current / SLOTS)))
    {
      hide Growing, MapOk, Words, Pack, FileSys.Valid, OuterOk, SlotsOk, DataOwned;
      var c := current / SLOTS;
      var remaining := SLOTS - current % SLOTS;
      sectors := if add < remaining then add else remaining;
      OuterCount(disk, owner, f, outer0, data, inner);
      OuterSlot(disk, owner, f, outer0, data, inner, c);
      var block;
      block, data' := IndirectBlockAllocate(current % SLOTS, sectors, outer0[c], f, Inner(f, c), data,
        SINGLE_END + SLOTS * c);
      OuterStep(old(disk), old(owner), disk, owner, f, outer0, data, data', inner, c, block);
      inner' := if c == |inner| then inner + [block] else inner;
      outer := outer0[c := block];
    }

    /** `double_indirect_block_allocate`, the loop over inner blocks. */
    method FillOuter(current0: int, add0: int, outer0: seq<Word>, ghost f: int, ghost data: seq<int>,
                     ghost inner: seq<int>)
      returns (outer: seq<Word>, ghost data': seq<int>, ghost inner': seq<int>)
      requires Valid() && add0 >= 0 && current0 == |data| - SINGLE_END >= 0 && |data| + add0 <= LIMIT
      requires DataOwned(owner, f, data) && OuterOk(disk, owner, f, outer0, data, inner) && |outer0| == SLOTS
      requires |owner| + add0 + InnerCount(|data| + add0) - |inner| <= |disk|
      modifies this, freeMap.bits
      ensures Valid() && |owner| == |old(owner)| + add0 + |inner'| - |inner|
      ensures |data'| == |data| + add0 && OuterOk(disk, owner, f, outer, data', inner')
      ensures Growing(old(disk), old(owner), disk, owner, f, data, data', Doubles)
    {
      GrowNone(disk, owner, f, data, Doubles);
      hide Growing, MapOk, Words, Pack, FileSys.Valid, OuterOk, SlotsOk, DataOwned, InnerCount;
      var current, add := current0, add0;
      outer, data', inner' := outer0, data, inner;
      while add > 0
        invariant 0 <= add && current + add == current0 + add0 && |data'| == SINGLE_END + current && 0 <= current
        invariant Valid() && DataOwned(owner, f, data') && OuterOk(disk, owner, f, outer, data', inner') &&
          |outer| == SLOTS
        invariant |disk| == |old(disk)| && |owner| + add == |old(owner)| + add0 + |inner'| - |inner|
        invariant Growing(old(disk), old(owner), disk, owner, f, data, data', Doubles)
      {
        ghost var d1, o1, data1 := disk, owner, data';
        var sectors;
        sectors, outer, data', inner' := OuterRound(current, add, outer, f, data', inner');
        GrowOwned(d1, o1, disk, owner, f, data1, data', Only(Inner(f, current / SLOTS)));
        GrowTwice(old(disk), old(owner), d1, o1, disk, owner, f, data, data1, data', Doubles, Doubles,
          Only(Inner(f, current / SLOTS)));
        add, current := add - sectors, current + sectors;
      }
    }

    /** `double_indirect_block_allocate` */
    method DoubleIndirectBlockAllocate(current: int, add: int, block0: Word, ghost f: int, ghost data: seq<int>,
                                       ghost inner: seq<int>)
      returns (block: Word, ghost data': seq<int>, ghost inner': seq<int>)
      requires Valid() && add > 0 && current == |data| - SINGLE_END >= 0 && |data| + add <= LIMIT
      requires DataOwned(owner, f, data) && DoubleOk(disk, owner, f, block0, data, inner)
      requires |owner| + add + IndexBlocks(|data| + add) - IndexBlocks(|data|) <= |disk|
      modifies this, freeMap.bits
      ensures Valid() && |owner| == |old(owner)| + add + IndexBlocks(|data| + add) - IndexBlocks(|data|)
      ensures |data'| == |data| + add && DoubleOk(disk, owner, f, block, data', inner')
      ensures Growing(old(disk), old(owner), disk, owner, f, data, data', Doubles)
    {
      hide Growing, MapOk, Words, Pack, FileSys.Valid, InnerOk;
      ghost var d0, o0 := disk, owner;
      var outer;
      block, outer := OpenBlock(block0, Double(f));
      ghost var d1, o1 := disk, owner;
      if block0 == 0 {
        GrowBlock(d0, o0, f, data, block, Double(f));
      } else {
        GrowNone(d0, o0, f, data, Only(Double(f)));
      }
      GrowOwned(d0, o0, d1, o1, f, data, data, Only(Double(f)));
      outer, data', inner' := FillOuter(current, add, outer, f, data, inner);
      GrowOwned(d1, o1, disk, owner, f, data, data', Doubles);
      GrowTwice(d0, o0, d1, o1, disk, owner, f, data, data, data', Doubles, Only(Double(f)), Doubles);
      ghost var d2 := disk;
      WordsPack(outer);
      WriteBlock(d2, owner, f, data', block, Double(f), Pack(outer));
      OuterWrite(d2, owner, f, outer, data', inner', block, Pack(outer));
      BlockWrite(block, Pack(outer));
      GrowTwice(d0, o0, d2, owner, disk, owner, f, data, data', data', Doubles, Doubles, Only(Double(f)));
    }

    /** The loop of `sector_allocate` over the direct blocks. */
    method AllocDirect(current0: int, add0: int, direct0: seq<Word>, ghost f: int, ghost data: seq<int>)
      returns (add: int, direct: seq<Word>, ghost data': seq<int>)
      requires Valid() && add0 >= 0 && current0 == |data| && DataOwned(owner, f, data) && DirectOk(direct0, data) &&
        |owner| + add0 <= |disk|
      modifies this, freeMap.bits
      ensures Valid() && 0 <= add <= add0 && |owner| == |old(owner)| + add0 - add && |data'| == |data| + add0 - add
      ensures add0 - add == DirectShare(|data|, add0)
      ensures DirectOk(direct, data')
      ensures |data| >= DIRECT_NUM ==> disk == old(disk) && owner == old(owner)
      ensures Growing(old(disk), old(owner), disk, owner, f, data, data', Nothing)
    {
      GrowNone(disk, owner, f, data, Nothing);
      hide Growing, Zeros, DataOwned, Words, FileSys.Valid;
      var current := current0;
      add, direct, data' := add0, direct0, data;
      while add > 0 && current < DIRECT_NUM
        invariant 0 <= add <= add0 && current == |data'| == |data| + add0 - add
        invariant |data'| > |data| ==> |data'| <= DIRECT_NUM
        invariant DirectOk(direct, data')
        invariant Valid() && |disk| == |old(disk)| && |owner| == |old(owner)| + add0 - add
        invariant |data| >= DIRECT_NUM ==> disk == old(disk) && owner == old(owner)
        invariant Growing(old(disk), old(owner), disk, owner, f, data, data', Nothing)
      {
        ghost var d1, o1 := disk, owner;
        var s := AllocData(f, |data'|);
        GrowData(old(disk), old(owner), d1, o1, f, data, data', Nothing, s);
        direct, data' := direct[current := s], data' + [s];
        add, current := add - 1, current + 1;
      }
    }

    /** The step of `sector_allocate` for the single-indirect block: it writes exactly
        the slots of SingleSlots, and `overrun` tells that they go past the buffer. */
    method AllocSingle(current: int, add0: int, indirect0: Word, ghost f: int, ghost data: seq<int>)
      returns (overrun: bool, add: int, indirect: Word, ghost data': seq<int>)
      requires Valid() && add0 >= 0 && current == |data| && DataOwned(owner, f, data)
      requires SingleOk(disk, owner, f, indirect0, data)
      requires add0 > 0 ==> |data| >= DIRECT_NUM
      requires |owner| + add0 + IndexBlocks(|data| + add0) - IndexBlocks(|data|) <= |disk|
      modifies this, freeMap.bits
      ensures Valid() && (overrun <==> SLOTS < SingleSlots(|data|, add0).1)
      ensures overrun ==> disk == old(disk) && owner == old(owner)
      ensures !overrun ==> 0 <= add <= add0 && |data'| == |data| + add0 - add
      ensures !overrun ==> add0 - add == SingleSlots(|data|, add0).1 - SingleSlots(|data|, add0).0
      ensures !overrun ==> |owner| == |old(owner)| + add0 - add + IndexBlocks(|data'|) - IndexBlocks(|data|)
      ensures !overrun ==> SingleOk(disk, owner, f, indirect, data')
      ensures |data| >= SINGLE_END ==> disk == old(disk) && owner == old(owner)
      ensures !overrun ==> Growing(old(disk), old(owner), disk, owner, f, data, data', Only(Single(f)))
    {
      GrowNone(disk, owner, f, data, Only(Single(f)));
      hide Growing, MapOk, Words, FileSys.Valid, SlotsOk;
      overrun, add, indirect, data' := false, add0, indirect0, data;
      if add > 0 && current < SINGLE_END {
        var sectors := SingleSectors(add);
        if current - DIRECT_NUM + sectors > SLOTS {
          overrun := true;
          return;
        }
        indirect, data' := IndirectBlockAllocate(current - DIRECT_NUM, sectors, indirect, f, Single(f), data,
          DIRECT_NUM);
        add := add - sectors;
      }
    }

    /** The step of `sector_allocate` for the double-indirect block. */
    method AllocDouble(current: int, add: int, block0: Word, ghost indirect: Word, ghost f: int, ghost data: seq<int>,
      ghost inner: seq<int>)
      returns (block: Word, ghost data': seq<int>, ghost inner': seq<int>)
      requires Valid() && add >= 0 && current == |data| && (add > 0 ==> |data| >= SINGLE_END && |data| + add <= LIMIT)
      requires DataOwned(owner, f, data) && DoubleOk(disk, owner, f, block0, data, inner) &&
        SingleOk(disk, owner, f, indirect, data)
      requires |owner| + add + IndexBlocks(|data| + add) - IndexBlocks(|data|) <= |disk|
      modifies this, freeMap.bits
      ensures Valid() && |owner| == |old(owner)| + add + IndexBlocks(|data| + add) - IndexBlocks(|data|)
      ensures |data'| == |data| + add && DoubleOk(disk, owner, f, block, data', inner') &&
        SingleOk(disk, owner, f, indirect, data')
      ensures Growing(old(disk), old(owner), disk, owner, f, data, data', Doubles)
    {
      hide Growing, MapOk, Words, FileSys.Valid, SlotsOk, OuterOk, Owns, DataOwned;
      ghost var g0, o0 := disk, owner;
      block, data', inner' := block0, data, inner;
      if add > 0 {
        block, data', inner' := DoubleIndirectBlockAllocate(current - SINGLE_END, add, block, f, data, inner);
        SingleStays(g0, o0, disk, owner, f, indirect, data, data');
      } else {
        GrowNone(disk, owner, f, data, Doubles);
      }
    }

    /** The steps of `sector_allocate` after the direct blocks. */
    method AllocIndexed(current: int, add0: int, d0: InodeDisk, ghost f: int, ghost data: seq<int>,
                        ghost inner: seq<int>)
      returns (r: Outcome, d: InodeDisk, ghost data': seq<int>, ghost inner': seq<int>)
      requires Valid() && add0 >= 0 && current == |data| && (add0 > 0 ==> |data| >= DIRECT_NUM) &&
        DataOwned(owner, f, data)
      requires SingleOk(disk, owner, f, d0.indirect, data) && DoubleOk(disk, owner, f, d0.doubleIndirect, data, inner)
      requires |owner| + add0 + IndexBlocks(|data| + add0) - IndexBlocks(|data|) <= |disk|
      modifies this, freeMap.bits
      ensures Valid() && r != TooBig && (r == Overrun <==> SLOTS < SingleSlots(|data|, add0).1)
      ensures r == Uncleared <==> SingleSlots(|data|, add0).1 <= SLOTS && |data| + add0 > LIMIT
      ensures r == Overrun ==> d == d0 && disk == old(disk) && owner == old(owner)
      ensures r != Overrun ==> d == d0.(indirect := d.indirect, doubleIndirect := d.doubleIndirect) && data <= data'
      ensures r == Allocated ==> |data'| == |data| + add0
      ensures r == Uncleared ==> |data'| == BeforeDouble(|data|)
      ensures r != Overrun ==>
        SingleOk(disk, owner, f, d.indirect, data') && DoubleOk(disk, owner, f, d.doubleIndirect, data', inner')
      ensures r != Overrun ==> |owner| == |old(owner)| + |data'| - |data| + IndexBlocks(|data'|) - IndexBlocks(|data|)
      ensures r != Overrun ==> Growing(old(disk), old(owner), disk, owner, f, data, data', Index)
    {
      hide Growing, MapOk, Words, FileSys.Valid, SlotsOk, OuterOk, Owns, DataOwned;
      ghost var g1, o1 := disk, owner;
      DoubleBound(disk, owner, f, d0.doubleIndirect, data, inner);
      var overrun, add, indirect, double;
      overrun, add, indirect, data' := AllocSingle(current, add0, d0.indirect, f, data);
      d, inner' := d0, inner;
      if overrun { return Overrun, d, data', inner'; }
      ghost var g2, o2, data2 := disk, owner, data';
      GrowOwned(g1, o1, g2, o2, f, data, data2, Only(Single(f)));
      if add > 0 && FollowsUncleared(current + add0) {
        LimitIsCleared(current + add0);
        GrowMore(g1, o1, g2, o2, f, data, data2, Only(Single(f)), Index);
        return Uncleared, d.(indirect := indirect), data', inner';
      }
      double, data', inner' := AllocDouble(current + add0 - add, add, d0.doubleIndirect, indirect, f, data2, inner);
      GrowOwned(g2, o2, disk, owner, f, data2, data', Doubles);
      GrowTwice(g1, o1, g2, o2, disk, owner, f, data, data2, data', Index, Only(Single(f)), Doubles);
      r, d := Allocated, d0.(indirect := indirect, doubleIndirect := double);
    }

    /** `sector_allocate`: adds sectors to the file whose inode is d0. It refuses
        only what exceeds the maximum file size, and overruns the single-indirect
        buffer exactly if the growth is not GrowthSafe.  Otherwise it follows an entry
        that nobody wrote exactly if the file grows beyond LIMIT sectors; the sectors it
        added before it comes to that are all there.  It relies on enough free sectors. */
    method SectorAllocate(add0: int, d0: InodeDisk, ghost f: int, ghost data: seq<int>, ghost inner: seq<int>)
      returns (r: Outcome, d: InodeDisk, ghost data': seq<int>, ghost inner': seq<int>)
      requires Valid() && add0 >= 0 && |data| == SectorsFor(d0.length)
      requires DataOwned(owner, f, data) && IndexOk(disk, owner, f, d0, data, inner)
      requires |data| + add0 <= MAX_SECTORS ==>
        |owner| + add0 + IndexBlocks(|data| + add0) - IndexBlocks(|data|) <= |disk|
      modifies this, freeMap.bits
      ensures Valid() && (r == TooBig <==> |data| + add0 > MAX_SECTORS)
      ensures r == Overrun <==> |data| + add0 <= MAX_SECTORS && !GrowthSafe(|data|, add0)
      ensures r == Uncleared <==> LIMIT < |data| + add0 <= MAX_SECTORS && GrowthSafe(|data|, add0)
      ensures r == TooBig || r == Overrun ==> d == d0 && disk == old(disk) && owner == old(owner)
      ensures r == Allocated ==> |data'| == |data| + add0
      ensures r == Uncleared ==> |data'| == BeforeDouble(|data|)
      ensures r == Allocated || r == Uncleared ==>
        d == d0.(direct := d.direct, indirect := d.indirect, doubleIndirect := d.doubleIndirect)
      ensures r == Allocated || r == Uncleared ==> IndexOk(disk, owner, f, d, data', inner')
      ensures r == Allocated || r == Uncleared ==> Growing(old(disk), old(owner), disk, owner, f, data, data', Index)
      ensures r == Allocated || r == Uncleared ==>
        |owner| == |old(owner)| + |data'| - |data| + IndexBlocks(|data'|) - IndexBlocks(|data|)
    {
      hide Growing, MapOk, Words, FileSys.Valid, SlotsOk, OuterOk, DirectOk, Owns, DataOwned;
      var current := SectorsFor(d0.length);
      d, data', inner' := d0, data, inner;
      if current + add0 > MAX_SECTORS {
        return TooBig, d, data', inner';
      }
      ghost var g0, o0 := disk, owner;
      var add, direct := add0, d0.direct;
      add, direct, data' := AllocDirect(current, add, direct, f, data);
      ghost var g1, o1, data1 := disk, owner, data';
      GrowOwned(g0, o0, g1, o1, f, data, data1, Nothing);
      SingleShareFits(|data|, add0);
      r, d, data', inner' := AllocIndexed(current + add0 - add, add, d0, f, data1, inner);
      if r == Overrun { return; }
      GrowTwice(g0, o0, g1, o1, disk, owner, f, data, data1, data', Index, Nothing, Index);
      DirectStays(direct, data1, data');
      d := d.(direct := direct);
    }
  }
  /** Growing a new file to 4235 sectors, on any device with room for them, takes an
      entry that nobody wrote for the number of an index block. */
  method GrowPastCleared(device: seq<Sector>) returns (r: Outcome)
    requires 4273 <= |device| < 0x1_0000_0000
    ensures r == Uncleared
  {
    hide Growing, MapOk, Words, FileSys.Valid;
    var fs := new FileSys(device);
    var sector := fs.AllocInode();
    assert |map[FREE_MAP_SECTOR := InodeOf(FREE_MAP_SECTOR), ROOT_DIR_SECTOR := InodeOf(ROOT_DIR_SECTOR)]| == 2;
    var zeros: seq<Word> := seq(DIRECT_NUM, _ => 0);
    var d;
    ghost var data, inner;
    r, d, data, inner := fs.SectorAllocate(4235, InodeDisk(zeros, 0, 0, false, 0, 0, 0), sector.value, [], []);
  }
}
