/** Files as byte sequences: lookup, reading and writing (filesys/inode.c). */
module Files {
  import opened Sectors
  import opened FileSystem

  /** The in-memory inode. */
  class Inode {
    var sector: int
    var openCnt: int
    var removed: bool
    var denyWriteCnt: int
    var data: InodeDisk

    constructor (sector: int, data: InodeDisk)
      ensures this.sector == sector && openCnt == 1 && !removed && denyWriteCnt == 0 && this.data == data
    {
      this.sector, this.data := sector, data;
      openCnt, removed, denyWriteCnt := 1, false, 0;
    }
  }

  /** The data sectors of a file in order and the inner blocks of its double index. */
  datatype Layout = Layout(data: seq<int>, inner: seq<int>)

  ghost predicate InRange(disk: seq<Sector>, data: seq<int>) {
    forall k :: 0 <= k < |data| ==> 0 <= data[k] < |disk|
  }

  /** All bytes of the data sectors, in order. */
  ghost function Raw(disk: seq<Sector>, data: seq<int>): (b: seq<Byte>)
    requires InRange(disk, data)
    ensures |b| == SECTOR_SIZE * |data|
  {
    seq(SECTOR_SIZE * |data|, i requires 0 <= i < SECTOR_SIZE * |data| => disk[data[i / SECTOR_SIZE]][i % SECTOR_SIZE])
  }

  /** The state of file f on disk, with index g; the bytes behind its end are zero. */
  ghost predicate FileMid(disk: seq<Sector>, owner: Owner, f: int, d: InodeDisk, g: Layout) {
    && Owns(owner, f, InodeOf(f)) && 0 <= f < |disk| && Decode(disk[f]) == d
    && 0 <= d.length < LIMIT * SECTOR_SIZE && |g.data| == SectorsFor(d.length)
    && DataOwned(owner, f, g.data) && InRange(disk, g.data) && IndexOk(disk, owner, f, d, g.data, g.inner)
    && forall i :: d.length <= i < SECTOR_SIZE * |g.data| ==> Raw(disk, g.data)[i] == 0
  }

  /** Between operations readers see all of the file. */
  ghost predicate FileOk(disk: seq<Sector>, owner: Owner, f: int, d: InodeDisk, g: Layout) {
    FileMid(disk, owner, f, d, g) && d.eof == d.length
  }

  /** The contents of the file. */
  ghost function View(disk: seq<Sector>, d: InodeDisk, g: Layout): seq<Byte> {
    if InRange(disk, g.data) && 0 <= d.length <= SECTOR_SIZE * |g.data| then Raw(disk, g.data)[..d.length] else []
  }

  /** Sector 0 holds an inode whose first data sector exists. (A lookup at the very
      end of a file can go through sector 0.) */
  ghost predicate Sane(disk: seq<Sector>) {
    |disk| > 0 && Words(disk[FREE_MAP_SECTOR])[0] < |disk|
  }

  /** Only sectors of file f, or sectors not in use before, differ. */
  ghost predicate Touched(d0: seq<Sector>, o0: Owner, d1: seq<Sector>, o1: Owner, f: int) {
    && |d0| == |d1| && Extends(o0, o1, f)
    && forall s :: s in o0 && o0[s].file != f && 0 <= s < |d0| ==> d1[s] == d0[s]
  }

  // ----- bytes -----

  lemma RawGrow(d0: seq<Sector>, o0: Owner, d1: seq<Sector>, o1: Owner, f: int, data0: seq<int>, data1: seq<int>)
    requires Growing(d0, o0, d1, o1, f, data0, data1, Index)
    requires DataOwned(o0, f, data0) && InRange(d0, data0) && InRange(d1, data1)
    ensures Raw(d1, data1) == Raw(d0, data0) + Zeros(SECTOR_SIZE * (|data1| - |data0|))
  {
    assert forall k :: 0 <= k < |data0| ==> data1[k] == data0[k] && d1[data0[k]] == d0[data0[k]];
    assert forall k :: |data0| <= k < |data1| ==> d1[data1[k]] == Zeros(SECTOR_SIZE);
    var a, b := Raw(d1, data1), Raw(d0, data0) + Zeros(SECTOR_SIZE * (|data1| - |data0|));
    forall i | 0 <= i < |a| ensures a[i] == b[i] {
      var k := i / SECTOR_SIZE;
      if k < |data0| { assert data1[k] == data0[k]; } else { assert d1[data1[k]] == Zeros(SECTOR_SIZE); }
    }
  }

  lemma RawSector(disk: seq<Sector>, data: seq<int>, k: int)
    requires InRange(disk, data) && 0 <= k < |data|
    ensures disk[data[k]] == Raw(disk, data)[SECTOR_SIZE * k..SECTOR_SIZE * (k + 1)]
  {}

  /** b with the bytes from position p on replaced. */
  function Spliced(b: seq<Byte>, p: int, chunk: seq<Byte>): (r: seq<Byte>)
    requires 0 <= p && p + |chunk| <= |b|
    ensures |r| == |b|
  {
    b[..p] + chunk + b[p + |chunk|..]
  }

  /** Writing part of a data sector splices the file's bytes. */
  lemma RawWrite(disk: seq<Sector>, owner: Owner, f: int, data: seq<int>, k: int, ofs: int, chunk: seq<Byte>)
    requires DataOwned(owner, f, data) && InRange(disk, data) && 0 <= k < |data|
    requires 0 <= ofs && ofs + |chunk| <= SECTOR_SIZE
    ensures var disk' := disk[data[k] := Spliced(disk[data[k]], ofs, chunk)];
      InRange(disk', data) && Raw(disk', data) == Spliced(Raw(disk, data), SECTOR_SIZE * k + ofs, chunk)
  {
    var x := Spliced(disk[data[k]], ofs, chunk);
    var disk' := disk[data[k] := x];
    var a, b := Raw(disk', data), Spliced(Raw(disk, data), SECTOR_SIZE * k + ofs, chunk);
    forall i | 0 <= i < |a| ensures a[i] == b[i] {
      var j := i / SECTOR_SIZE;
      if j != k { assert owner[data[j]] != owner[data[k]]; }
    }
  }

  // ----- lookup -----

  /** The way through the double index. */
  lemma LookupDouble(disk: seq<Sector>, owner: Owner, f: int, outer: seq<Word>, data: seq<int>, inner: seq<int>, k: int)
    requires OuterOk(disk, owner, f, outer, data, inner) && 0 < |disk|
    requires SINGLE_END <= k <= |data| && k < LIMIT
    ensures var c := (k - SINGLE_END) / SLOTS;
      0 <= c < CLEARED && 0 <= outer[c] < |disk| &&
      (k < |data| ==> Words(disk[outer[c]])[(k - SINGLE_END) % SLOTS] == data[k]) &&
      (k == |data| && (k - SINGLE_END) % SLOTS == 0 ==> outer[c] == 0) &&
      (k == |data| && 0 < (k - SINGLE_END) % SLOTS < CLEARED ==> Words(disk[outer[c]])[(k - SINGLE_END) % SLOTS] == 0)
  {
    var c := (k - SINGLE_END) / SLOTS;
    if c < |inner| { assert InnerOk(disk, owner, f, outer, data, inner, c); }
  }

  /** The entry after the last of n data sectors is one that a new index block does not clear. */
  predicate Unwritten(n: int) {
    if n < SINGLE_END then n - DIRECT_NUM >= CLEARED else (n - SINGLE_END) % SLOTS >= CLEARED
  }

  /** What a lookup at the end of a file of n whole sectors finds, if the entry is not
      Unwritten: a cleared entry, or, if the index block it looks for is not there, the
      words of sector 0 and, after 138 sectors, of the sector they name. */
  ghost function EndEntry(disk: seq<Sector>, n: int): Word
    requires Sane(disk)
  {
    if n == SINGLE_END then Words(disk[Words(disk[FREE_MAP_SECTOR])[0]])[0]
    else if n == DIRECT_NUM || (n > SINGLE_END && (n - SINGLE_END) % SLOTS == 0) then Words(disk[FREE_MAP_SECTOR])[0]
    else 0
  }

  /** pos is the end of a file of whole sectors. */
  predicate AtEnd(d: InodeDisk, pos: int) { pos == d.length && d.length % SECTOR_SIZE == 0 }

  /** `byte_to_sector`: below the end of the file, the data sector in allocation
      order; no block read on the way leaves the device.  At the end of the file,
      where there is no byte, it still returns a sector and not NO_SECTOR. */
  method ByteToSector(fs: FileSys, d: InodeDisk, pos: int, ghost f: int, ghost g: Layout) returns (s: Word)
    requires fs.Valid() && Sane(fs.disk) && FileMid(fs.disk, fs.owner, f, d, g) && pos >= 0
    ensures pos > d.length ==> s == NO_SECTOR
    ensures pos < d.length ==> s == g.data[pos / SECTOR_SIZE]
    ensures pos == d.length && d.length % SECTOR_SIZE != 0 ==> s == g.data[pos / SECTOR_SIZE]
    ensures AtEnd(d, pos) && !Unwritten(pos / SECTOR_SIZE) ==> s == EndEntry(fs.disk, pos / SECTOR_SIZE)
    ensures !(AtEnd(d, pos) && (Unwritten(pos / SECTOR_SIZE) || pos / SECTOR_SIZE == SINGLE_END)) ==>
      (s == NO_SECTOR <==> pos > d.length)
  {
    hide MapOk, Words, Raw, Decode;
    if pos <= d.length {
      var sectors := pos / SECTOR_SIZE;
      if sectors < DIRECT_NUM {
        return d.direct[sectors];
      } else if sectors < SLOTS + DIRECT_NUM {
        var buffer := Words(fs.disk[d.indirect]);
        return buffer[sectors - DIRECT_NUM];
      } else {
        var buffer := Words(fs.disk[d.doubleIndirect]);
        if d.doubleIndirect != 0 { LookupDouble(fs.disk, fs.owner, f, buffer, g.data, g.inner, sectors); }
        var c := (sectors - DIRECT_NUM - SLOTS) / SLOTS;
        var buffer2 := Words(fs.disk[buffer[c]]);
        return buffer2[(sectors - DIRECT_NUM - SLOTS) % SLOTS];
      }
    } else {
      return NO_SECTOR;
    }
  }

  // ----- reading -----

  /** The part of v from offset on, at most size bytes. */
  function Slice(v: seq<Byte>, offset: int, size: int): seq<Byte>
    requires offset >= 0
  {
    if offset >= |v| || size <= 0 then [] else v[offset..if offset + size < |v| then offset + size else |v|]
  }

  /** `inode_read_at`: the bytes read are exactly the slice below the end of file. */
  method InodeReadAt(fs: FileSys, inode: Inode, size0: int, offset0: int, ghost g: Layout) returns (buffer: seq<Byte>)
    requires fs.Valid() && Sane(fs.disk) && FileOk(fs.disk, fs.owner, inode.sector, inode.data, g) && offset0 >= 0
    ensures buffer == Slice(View(fs.disk, inode.data, g), offset0, size0)
  {
    hide MapOk, FileMid, View, Slice;
    buffer := ReadLoop(fs, inode.data, size0, offset0, inode.sector, g);
  }

  method ReadLoop(fs: FileSys, d: InodeDisk, size0: int, offset0: int, ghost f: int, ghost g: Layout)
    returns (buffer: seq<Byte>)
    requires fs.Valid() && Sane(fs.disk) && FileMid(fs.disk, fs.owner, f, d, g) && d.eof == d.length && offset0 >= 0
    ensures buffer == Slice(View(fs.disk, d, g), offset0, size0)
  {
    hide *;
    var size, offset, disk := size0, offset0, fs.disk;
    ghost var v := View(disk, d, g);
    FileFacts(disk, fs.owner, f, d, g);
    SliceEnds(v, offset0);
    buffer := [];
    while size > 0
      invariant offset >= offset0 && size + offset == size0 + offset0 && if size0 > 0 then size >= 0
        else offset == offset0
      invariant offset > offset0 ==> offset <= |v|
      invariant buffer == Slice(v, offset0, offset - offset0)
      decreases size
    {
      var sector := ByteToSector(fs, d, offset, f, g);
      var ofs, chunk := Chunk(offset, size, d.eof - offset);
      if chunk <= 0 { break; }
      ReadChunk(disk, d, g, offset0, offset, chunk);
      buffer := buffer + disk[sector][ofs..ofs + chunk];
      size, offset := size - chunk, offset + chunk;
    }
    assert size0 > 0 ==> offset == offset0 + size0 || offset >= |v|;
  }

  /** The sector offset and the chunk size that both loops compute. */
  method Chunk(offset: int, size: int, inodeLeft: int) returns (ofs: int, chunk: int)
    requires offset >= 0 && size > 0
    ensures 0 <= ofs == offset % SECTOR_SIZE && ofs + chunk <= SECTOR_SIZE && chunk <= size && chunk <= inodeLeft
    ensures chunk <= 0 <==> inodeLeft <= 0
  {
    ofs := offset % SECTOR_SIZE;
    var sectorLeft := SECTOR_SIZE - ofs;
    var minLeft := if inodeLeft < sectorLeft then inodeLeft else sectorLeft;
    chunk := if size < minLeft then size else minLeft;
  }

  lemma FileFacts(disk: seq<Sector>, owner: Owner, f: int, d: InodeDisk, g: Layout)
    requires FileMid(disk, owner, f, d, g)
    ensures InRange(disk, g.data) && 0 <= d.length <= SECTOR_SIZE * |g.data| && |View(disk, d, g)| == d.length
    ensures forall pos :: 0 <= pos < d.length ==> 0 <= pos / SECTOR_SIZE < |g.data|
  {
    hide Raw, IndexOk;
  }

  lemma SliceEnds(v: seq<Byte>, offset: int)
    requires offset >= 0
    ensures forall n :: n <= 0 || offset >= |v| ==> Slice(v, offset, n) == []
    ensures forall m, n :: offset + m >= |v| && offset + n >= |v| && m > 0 && n > 0 ==>
      Slice(v, offset, m) == Slice(v, offset, n)
  {}

  lemma SliceStep(v: seq<Byte>, offset: int, n: int, chunk: int)
    requires 0 <= offset && 0 <= n && 0 < chunk && offset + n + chunk <= |v|
    ensures Slice(v, offset, n) + v[offset + n..offset + n + chunk] == Slice(v, offset, n + chunk)
  {}

  lemma SubSlice(b: seq<Byte>, len: int, lo: int, ofs: int, chunk: int)
    requires 0 <= lo && 0 <= ofs && 0 <= chunk && ofs + chunk <= SECTOR_SIZE && lo + SECTOR_SIZE <= |b| &&
      lo + ofs + chunk <= len <= |b|
    ensures b[lo..lo + SECTOR_SIZE][ofs..ofs + chunk] == b[..len][lo + ofs..lo + ofs + chunk]
  {
    var l, r := b[lo..lo + SECTOR_SIZE][ofs..ofs + chunk], b[..len][lo + ofs..lo + ofs + chunk];
    assert forall i :: 0 <= i < chunk ==> l[i] == b[lo + ofs + i] && r[i] == b[lo + ofs + i];
  }

  /** One chunk copied out of a data sector extends the slice. */
  lemma ReadChunk(disk: seq<Sector>, d: InodeDisk, g: Layout, offset0: int, offset: int, chunk: int)
    requires InRange(disk, g.data) && 0 <= d.length <= SECTOR_SIZE * |g.data|
    requires 0 <= offset0 <= offset && 0 < chunk && offset + chunk <= d.length &&
      offset % SECTOR_SIZE + chunk <= SECTOR_SIZE
    ensures 0 <= g.data[offset / SECTOR_SIZE] < |disk| && |disk[g.data[offset / SECTOR_SIZE]]| == SECTOR_SIZE
    ensures Slice(View(disk, d, g), offset0, offset - offset0)
      + disk[g.data[offset / SECTOR_SIZE]][offset % SECTOR_SIZE..offset % SECTOR_SIZE + chunk]
      == Slice(View(disk, d, g), offset0, offset + chunk - offset0)
  {
    hide Raw, Slice;
    var k := offset / SECTOR_SIZE;
    RawSector(disk, g.data, k);
    SubSlice(Raw(disk, g.data), d.length, SECTOR_SIZE * k, offset % SECTOR_SIZE, chunk);
    SliceStep(View(disk, d, g), offset0, offset - offset0, chunk);
  }

  // ----- frames -----

  /** The index blocks of file f, and their contents, are the same. */
  ghost predicate SameIndex(d0: seq<Sector>, o0: Owner, d1: seq<Sector>, o1: Owner, f: int) {
    && |d0| == |d1|
    && forall s :: s in o0 && o0[s].file == f && (o0[s].Single? || o0[s].Double? || o0[s].Inner?) ==>
        Owns(o1, s, o0[s]) && (0 <= s < |d0| ==> d1[s] == d0[s])
  }

  lemma IndexFrame(d0: seq<Sector>, o0: Owner, d1: seq<Sector>, o1: Owner, f: int, d: InodeDisk, data: seq<int>,
                   inner: seq<int>)
    requires IndexOk(d0, o0, f, d, data, inner) && SameIndex(d0, o0, d1, o1, f)
    ensures IndexOk(d1, o1, f, d, data, inner)
  {
    hide Words, SlotsOk;
    if |data| > SINGLE_END {
      OuterFrame(d0, o0, d1, o1, f, Words(d0[d.doubleIndirect]), data, inner);
    }
  }

  lemma OuterFrame(d0: seq<Sector>, o0: Owner, d1: seq<Sector>, o1: Owner, f: int, outer: seq<Word>, data: seq<int>,
                   inner: seq<int>)
    requires OuterOk(d0, o0, f, outer, data, inner) && SameIndex(d0, o0, d1, o1, f)
    ensures OuterOk(d1, o1, f, outer, data, inner)
  {
    hide Words, SlotsOk;
    forall j | 0 <= j < |inner| ensures InnerOk(d1, o1, f, outer, data, inner, j) {
      assert InnerOk(d0, o0, f, outer, data, inner, j);
    }
  }

  lemma RawFrame(d0: seq<Sector>, d1: seq<Sector>, data: seq<int>)
    requires InRange(d0, data) && |d0| == |d1| && forall k :: 0 <= k < |data| ==> d1[data[k]] == d0[data[k]]
    ensures InRange(d1, data) && Raw(d1, data) == Raw(d0, data)
  {}

  /** Everything that belongs to file h is as before. */
  ghost predicate SameFile(d0: seq<Sector>, o0: Owner, d1: seq<Sector>, o1: Owner, h: int) {
    && |d0| == |d1|
    && forall s :: s in o0 && o0[s].file == h ==> Owns(o1, s, o0[s]) && (0 <= s < |d0| ==> d1[s] == d0[s])
  }

  lemma FileFrame(d0: seq<Sector>, o0: Owner, d1: seq<Sector>, o1: Owner, h: int, d: InodeDisk, g: Layout)
    requires SameFile(d0, o0, d1, o1, h) && FileMid(d0, o0, h, d, g)
    ensures FileMid(d1, o1, h, d, g) && View(d1, d, g) == View(d0, d, g)
  {
    hide IndexOk, Raw, Decode;
    forall k | 0 <= k < |g.data| ensures d1[g.data[k]] == d0[g.data[k]] && Owns(o1, g.data[k], Data(h, k)) {
      assert Owns(o0, g.data[k], Data(h, k));
    }
    RawFrame(d0, d1, g.data);
    IndexFrame(d0, o0, d1, o1, h, d, g.data, g.inner);
  }

  /** What one file's operation does leaves every other file, and its contents, alone. */
  lemma OtherFile(d0: seq<Sector>, o0: Owner, d1: seq<Sector>, o1: Owner, f: int, h: int, d: InodeDisk, g: Layout)
    requires Touched(d0, o0, d1, o1, f) && FileMid(d0, o0, h, d, g) && f != h
    ensures FileMid(d1, o1, h, d, g) && View(d1, d, g) == View(d0, d, g)
  {
    hide FileMid, View;
    FileFrame(d0, o0, d1, o1, h, d, g);
  }

  /** The data sectors of all files are pairwise distinct, distinct from every index
      block and inode, and never one of the two system sectors. */
  lemma DataSectorsApart(disk: seq<Sector>, owner: Owner, f: int, d: InodeDisk, g: Layout, h: int, e: InodeDisk,
                         g': Layout, i: int, j: int)
    requires FileMid(disk, owner, f, d, g) && FileMid(disk, owner, h, e, g') && 0 <= i < |g.data| && 0 <= j < |g'.data|
    requires Owns(owner, FREE_MAP_SECTOR, InodeOf(FREE_MAP_SECTOR)) &&
      Owns(owner, ROOT_DIR_SECTOR, InodeOf(ROOT_DIR_SECTOR))
    ensures g.data[i] == g'.data[j] ==> f == h && i == j
    ensures g.data[i] >= 2 && g.data[i] != f && g.data[i] != h
    ensures g.data[i] != e.indirect && g.data[i] != e.doubleIndirect && g.data[i] !in g'.inner
  {
    hide Raw, Words, SlotsOk, Decode;
    assert Owns(owner, g.data[i], Data(f, i)) && Owns(owner, g'.data[j], Data(h, j));
    if |g'.data| > SINGLE_END {
      forall c | 0 <= c < |g'.inner| ensures g'.inner[c] != g.data[i] {
        assert InnerOk(disk, owner, h, Words(disk[e.doubleIndirect]), g'.data, g'.inner, c);
      }
    }
  }

  lemma TouchedTwice(d0: seq<Sector>, o0: Owner, d1: seq<Sector>, o1: Owner, d2: seq<Sector>, o2: Owner, f: int)
    requires Touched(d0, o0, d1, o1, f) && Touched(d1, o1, d2, o2, f)
    ensures Touched(d0, o0, d2, o2, f)
  {
    assert forall s :: s in o0 ==> Owns(o1, s, o0[s]);
  }

  // ----- writing -----

  /** Part of one data sector of the file is written, below its end. */
  lemma WriteStep(disk: seq<Sector>, owner: Owner, f: int, d: InodeDisk, g: Layout, offset: int, chunk: seq<Byte>)
    requires FileMid(disk, owner, f, d, g) && Sane(disk) && Owns(owner, FREE_MAP_SECTOR, InodeOf(FREE_MAP_SECTOR))
    requires 0 <= offset && offset + |chunk| <= d.length && offset % SECTOR_SIZE + |chunk| <= SECTOR_SIZE && |chunk| > 0
    ensures 0 <= g.data[offset / SECTOR_SIZE] < |disk|
    ensures var k := offset / SECTOR_SIZE;
      var disk' := disk[g.data[k] := Spliced(disk[g.data[k]], offset % SECTOR_SIZE, chunk)];
      FileMid(disk', owner, f, d, g) && Raw(disk', g.data) == Spliced(Raw(disk, g.data), offset, chunk) &&
      Sane(disk') && Touched(disk, owner, disk', owner, f)
  {
    hide IndexOk, Raw, Decode, Words;
    var k := offset / SECTOR_SIZE;
    assert Owns(owner, g.data[k], Data(f, k));
    var disk' := disk[g.data[k] := Spliced(disk[g.data[k]], offset % SECTOR_SIZE, chunk)];
    RawWrite(disk, owner, f, g.data, k, offset % SECTOR_SIZE, chunk);
    IndexFrame(disk, owner, disk', owner, f, d, g.data, g.inner);
  }

  /** The growth of a file, and then its inode with the new length, are on disk. */
  lemma GrewFile(d0: seq<Sector>, o0: Owner, d1: seq<Sector>, o1: Owner, f: int, old_: InodeDisk, g: Layout,
                 d: InodeDisk, g': Layout)
    requires FileMid(d0, o0, f, old_, g) && Sane(d0) && Owns(o0, FREE_MAP_SECTOR, InodeOf(FREE_MAP_SECTOR))
    requires Growing(d0, o0, d1, o1, f, g.data, g'.data, Index) && IndexOk(d1, o1, f, d, g'.data, g'.inner)
    requires InRange(d1, g'.data)
    requires old_.length < d.length < LIMIT * SECTOR_SIZE && |g'.data| == SectorsFor(d.length)
    ensures 0 <= f < |d1| && |d.direct| == DIRECT_NUM
    ensures var d2 := d1[f := Encode(d)];
      FileMid(d2, o1, f, d, g') && Sane(d2) && Touched(d0, o0, d2, o1, f) &&
      Raw(d2, g'.data) == Raw(d0, g.data) + Zeros(SECTOR_SIZE * (|g'.data| - |g.data|))
  {
    hide IndexOk, Raw, Encode, Words;
    IndexDirect(d1, o1, f, d, g');
    var d2 := d1[f := Encode(d)];
    RawGrow(d0, o0, d1, o1, f, g.data, g'.data);
    forall k | 0 <= k < |g'.data| ensures d2[g'.data[k]] == d1[g'.data[k]] { assert Owns(o1, g'.data[k], Data(f, k)); }
    RawFrame(d1, d2, g'.data);
    IndexFrame(d1, o1, d2, o1, f, d, g'.data, g'.inner);
    DecodeEncode(d);
    EncodeFirst(d);
    assert Owns(o1, FREE_MAP_SECTOR, o0[FREE_MAP_SECTOR]);
  }

  lemma IndexDirect(disk: seq<Sector>, owner: Owner, f: int, d: InodeDisk, g: Layout)
    requires IndexOk(disk, owner, f, d, g.data, g.inner) && InRange(disk, g.data) && |disk| > 0
    ensures |d.direct| == DIRECT_NUM && 0 <= d.direct[0] < |disk|
  {}

  lemma IndexLength(disk: seq<Sector>, owner: Owner, f: int, d: InodeDisk, data: seq<int>, inner: seq<int>, n: Word)
    requires IndexOk(disk, owner, f, d, data, inner)
    ensures IndexOk(disk, owner, f, d.(length := n), data, inner) && IndexOk(disk, owner, f, d.(eof := n), data, inner)
  {}

  lemma EncodeFirst(d: InodeDisk)
    requires |d.direct| == DIRECT_NUM
    ensures Words(Encode(d))[0] == d.direct[0]
  {
    WordsPack(ToWords(d));
  }

  /** Sectors taken, data and index, when a file grows from n to m data sectors. */
  function NewSectors(n: int, m: int): int {
    m - n + IndexBlocks(m) - IndexBlocks(n)
  }

  /** What growing the file with index g to newLength bytes needs: the index slots
      in use stay among those a fresh block clears, the step does not run over the
      single-indirect block, and there are enough free sectors. */
  ghost predicate CanGrow(n: int, owner: Owner, have: int, newLength: int) {
    && 0 <= newLength < LIMIT * SECTOR_SIZE
    && (SectorsFor(newLength) > have ==>
      GrowthSafe(have, SectorsFor(newLength) - have) && |owner| + NewSectors(have, SectorsFor(newLength)) <= n)
  }

  /** The first half of `inode_write_at`: extend the file to newLength bytes if it is
      shorter. Readers do not see the new bytes yet. */
  method Extend(fs: FileSys, inode: Inode, newLength: int, ghost g: Layout) returns (d: InodeDisk, ghost g': Layout)
    requires fs.Valid() && Sane(fs.disk) && FileMid(fs.disk, fs.owner, inode.sector, inode.data, g)
    requires CanGrow(|fs.disk|, fs.owner, |g.data|, newLength)
    modifies fs, fs.freeMap.bits, inode`data
    ensures fs.Valid() && Sane(fs.disk) && FileMid(fs.disk, fs.owner, inode.sector, inode.data, g')
    ensures d == inode.data && d.eof == old(inode.data).eof
    ensures d.length == if newLength > old(inode.data).length then newLength else old(inode.data).length
    ensures Touched(old(fs.disk), old(fs.owner), fs.disk, fs.owner, inode.sector)
    ensures InRange(old(fs.disk), g.data) && InRange(fs.disk, g'.data) && g.data <= g'.data
    ensures Raw(fs.disk, g'.data) == Raw(old(fs.disk), g.data) + Zeros(SECTOR_SIZE * (|g'.data| - |g.data|))
    ensures |fs.owner| == |old(fs.owner)| + NewSectors(|g.data|, |g'.data|)
  {
    hide IndexOk, Raw, Words, MapOk, Growing, DataOwned, Encode, Decode, Touched;
    ghost var d0, o0, f := fs.disk, fs.owner, inode.sector;
    var current, future := SectorsFor(inode.data.length), SectorsFor(newLength);
    d, g' := Decode(fs.disk[inode.sector]), g;
    ghost var data', inner' := g.data, g.inner;
    GrowNone(d0, o0, f, g.data, Index);
    Settled(fs, d0, o0, f, g.data, g.data);
    if future > current {
      var r;
      r, d, data', inner' := fs.SectorAllocate(future - current, d, f, g.data, g.inner);
    }
    if newLength > d.length {
      IndexLength(fs.disk, fs.owner, f, d, data', inner', newLength);
      d := d.(length := newLength);
      g' := Layout(data', inner');
      Settled(fs, d0, o0, f, g.data, data');
      GrewFile(d0, o0, fs.disk, fs.owner, f, inode.data, g, d, g');
      DecodeEncode(d);
      fs.BlockWrite(inode.sector, Encode(d));
      inode.data := Decode(fs.disk[inode.sector]);
    } else {
      TouchedNone(d0, o0, f);
      assert Raw(d0, g.data) + Zeros(0) == Raw(d0, g.data);
    }
  }

  lemma TouchedNone(d: seq<Sector>, o: Owner, f: int)
    ensures Touched(d, o, d, o, f)
  {}

  lemma Settled(fs: FileSys, d0: seq<Sector>, o0: Owner, f: int, data: seq<int>, data': seq<int>)
    requires fs.Valid() && Growing(d0, o0, fs.disk, fs.owner, f, data, data', Index)
    ensures InRange(fs.disk, data') && data <= data'
    ensures Owns(fs.owner, FREE_MAP_SECTOR, InodeOf(FREE_MAP_SECTOR))
  {
    forall k | 0 <= k < |data'| ensures 0 <= data'[k] < |fs.disk| { assert Owns(fs.owner, data'[k], Data(f, k)); }
  }

  lemma SplicedNone(b: seq<Byte>, p: int)
    requires 0 <= p <= |b|
    ensures Spliced(b, p, []) == b
  {}

  lemma SplicedStep(b: seq<Byte>, p: int, a: seq<Byte>, c: seq<Byte>)
    requires 0 <= p && p + |a| + |c| <= |b|
    ensures Spliced(Spliced(b, p, a), p + |a|, c) == Spliced(b, p, a + c)
  {}

  /** The part of a sector that a chunk covers is replaced: a full sector directly,
      part of one through the bounce buffer. */
  method WriteChunk(fs: FileSys, sector: int, ofs: int, chunk: seq<Byte>)
    requires fs.Valid() && 0 <= sector < |fs.disk| && 0 <= ofs && ofs + |chunk| <= SECTOR_SIZE
    modifies fs`disk
    ensures fs.Valid() && fs.disk == old(fs.disk)[sector := Spliced(old(fs.disk)[sector], ofs, chunk)]
  {
    hide MapOk;
    if ofs == 0 && |chunk| == SECTOR_SIZE {
      assert Spliced(fs.disk[sector], ofs, chunk) == chunk;
      fs.BlockWrite(sector, chunk);
    } else {
      var bounce := if ofs > 0 || |chunk| < SECTOR_SIZE - ofs then fs.disk[sector] else Zeros(SECTOR_SIZE);
      fs.BlockWrite(sector, Spliced(bounce, ofs, chunk));
    }
  }

  /** One round of the loop of `inode_write_at`. */
  method WriteRound(fs: FileSys, d: InodeDisk, rest: seq<Byte>, offset: int, ghost f: int, ghost g: Layout)
    returns (chunk: int)
    requires fs.Valid() && Sane(fs.disk) && FileMid(fs.disk, fs.owner, f, d, g)
    requires 0 <= offset && |rest| > 0 && offset + |rest| <= d.length
    modifies fs`disk
    ensures fs.Valid() && Sane(fs.disk) && FileMid(fs.disk, fs.owner, f, d, g) && 0 < chunk <= |rest|
    ensures InRange(old(fs.disk), g.data) && InRange(fs.disk, g.data) && offset + chunk <= SECTOR_SIZE * |g.data|
    ensures Raw(fs.disk, g.data) == Spliced(Raw(old(fs.disk), g.data), offset, rest[..chunk])
    ensures Touched(old(fs.disk), fs.owner, fs.disk, fs.owner, f)
  {
    GrowNone(fs.disk, fs.owner, f, g.data, Index);
    Settled(fs, fs.disk, fs.owner, f, g.data, g.data);
    FileFacts(fs.disk, fs.owner, f, d, g);
    hide *;
    var sector := ByteToSector(fs, d, offset, f, g);
    var ofs;
    ofs, chunk := Chunk(offset, |rest|, d.length - offset);
    WriteStep(fs.disk, fs.owner, f, d, g, offset, rest[..chunk]);
    WriteChunk(fs, sector, ofs, rest[..chunk]);
    FileFacts(fs.disk, fs.owner, f, d, g);
  }

  /** The loop of `inode_write_at`, once the file is long enough. */
  method WriteLoop(fs: FileSys, d: InodeDisk, buffer: seq<Byte>, offset0: int, ghost f: int,
                   ghost g: Layout) returns (written: int)
    requires fs.Valid() && Sane(fs.disk) && FileMid(fs.disk, fs.owner, f, d, g) && InRange(fs.disk, g.data)
    requires 0 <= offset0 && offset0 + |buffer| <= d.length <= SECTOR_SIZE * |g.data|
    modifies fs`disk
    ensures fs.Valid() && Sane(fs.disk) && FileMid(fs.disk, fs.owner, f, d, g) && written == |buffer|
    ensures InRange(fs.disk, g.data)
    ensures Raw(fs.disk, g.data) == Spliced(Raw(old(fs.disk), g.data), offset0, buffer)
    ensures Touched(old(fs.disk), fs.owner, fs.disk, fs.owner, f)
  {
    hide *;
    TouchedNone(fs.disk, fs.owner, f);
    ghost var raw := Raw(fs.disk, g.data);
    SplicedNone(raw, offset0);
    assert buffer[..0] == [];
    written := 0;
    while written < |buffer|
      invariant 0 <= written <= |buffer|
      invariant fs.Valid() && Sane(fs.disk) && FileMid(fs.disk, fs.owner, f, d, g) && InRange(fs.disk, g.data)
      invariant Raw(fs.disk, g.data) == Spliced(raw, offset0, buffer[..written])
      invariant Touched(old(fs.disk), fs.owner, fs.disk, fs.owner, f)
    {
      ghost var d1 := fs.disk;
      var chunk := WriteRound(fs, d, buffer[written..], offset0 + written, f, g);
      SplicedStep(raw, offset0, buffer[..written], buffer[written..][..chunk]);
      assert buffer[..written] + buffer[written..][..chunk] == buffer[..written + chunk];
      TouchedTwice(old(fs.disk), fs.owner, d1, fs.owner, fs.disk, fs.owner, f);
      written := written + chunk;
    }
    assert buffer[..|buffer|] == buffer;
  }

  /** The inode is written with the new end of file for readers. */
  lemma EofWritten(disk: seq<Sector>, owner: Owner, f: int, d: InodeDisk, g: Layout, eof: Word)
    requires FileMid(disk, owner, f, d, g) && Sane(disk) && Owns(owner, FREE_MAP_SECTOR, InodeOf(FREE_MAP_SECTOR))
    ensures 0 <= f < |disk| && |d.direct| == DIRECT_NUM
    ensures var d' := d.(eof := eof); var disk' := disk[f := Encode(d')];
      FileMid(disk', owner, f, d', g) && Decode(Encode(d')) == d' && Sane(disk') &&
        Touched(disk, owner, disk', owner, f) &&
      Raw(disk', g.data) == Raw(disk, g.data)
  {
    hide IndexOk, Raw, Encode, Words;
    var d' := d.(eof := eof);
    IndexDirect(disk, owner, f, d, g);
    var disk' := disk[f := Encode(d')];
    forall k | 0 <= k < |g.data| ensures disk'[g.data[k]] == disk[g.data[k]] {
      assert Owns(owner, g.data[k], Data(f, k));
    }
    RawFrame(disk, disk', g.data);
    IndexFrame(disk, owner, disk', owner, f, d, g.data, g.inner);
    IndexLength(disk', owner, f, d, g.data, g.inner, eof);
    DecodeEncode(d');
    EncodeFirst(d');
  }

  /** The byte sequence after writing buf at offset: as long as needed, the gap
      between the old end and the offset zero, everything else as it was. */
  function Overwrite(v: seq<Byte>, offset: int, buf: seq<Byte>): seq<Byte>
    requires offset >= 0
  {
    Spliced(v + Zeros(if offset + |buf| > |v| then offset + |buf| - |v| else 0), offset, buf)
  }

  lemma ViewAfterWrite(raw: seq<Byte>, len: int, raw': seq<Byte>, len': int, pad: int, offset: int, buf: seq<Byte>)
    requires 0 <= len <= |raw| && 0 <= pad && 0 <= offset && (forall i :: len <= i < |raw| ==> raw[i] == 0)
    requires len' == if offset + |buf| > len then offset + |buf| else len
    requires len' <= |raw| + pad && raw' == Spliced(raw + Zeros(pad), offset, buf)
    ensures raw'[..len'] == Overwrite(raw[..len], offset, buf)
  {
    var x, y := raw + Zeros(pad), raw[..len] + Zeros(len' - len);
    assert forall i :: 0 <= i < len' ==> x[i] == y[i];
    assert x[..len'] == y;
    assert Spliced(x, offset, buf)[..len'] == Spliced(x[..len'], offset, buf);
  }

  /** What FileOk says, in terms of the raw bytes. */
  lemma FileOkFacts(disk: seq<Sector>, owner: Owner, f: int, d: InodeDisk, g: Layout)
    ensures FileOk(disk, owner, f, d, g) <==> FileMid(disk, owner, f, d, g) && d.eof == d.length
    ensures FileMid(disk, owner, f, d, g) ==>
      InRange(disk, g.data) && 0 <= d.length <= SECTOR_SIZE * |g.data| &&
        View(disk, d, g) == Raw(disk, g.data)[..d.length] &&
      forall i :: d.length <= i < |Raw(disk, g.data)| ==> Raw(disk, g.data)[i] == 0
  {
    hide IndexOk, Decode, Raw;
  }

  lemma SystemInode(fs: FileSys)
    requires fs.Valid()
    ensures Owns(fs.owner, FREE_MAP_SECTOR, InodeOf(FREE_MAP_SECTOR))
  {}

  /** `inode_write_at`: afterwards the file is what Overwrite says, the sectors it had
      keep their place in it, and (lemma OtherFile) no other file has changed. */
  method InodeWriteAt(fs: FileSys, inode: Inode, buffer: seq<Byte>, offset: int, ghost g: Layout)
    returns (written: int, ghost g': Layout)
    requires fs.Valid() && Sane(fs.disk) && FileOk(fs.disk, fs.owner, inode.sector, inode.data, g) && offset >= 0
    requires inode.denyWriteCnt == 0 ==> CanGrow(|fs.disk|, fs.owner, |g.data|, offset + |buffer|)
    modifies fs, fs.freeMap.bits, inode`data
    ensures fs.Valid() && Sane(fs.disk) && FileOk(fs.disk, fs.owner, inode.sector, inode.data, g') && g.data <= g'.data
    ensures Touched(old(fs.disk), old(fs.owner), fs.disk, fs.owner, inode.sector)
    ensures inode.denyWriteCnt != 0 ==>
      written == 0 && g' == g && fs.disk == old(fs.disk) &&
      fs.owner == old(fs.owner) && inode.data == old(inode.data)
    ensures inode.denyWriteCnt == 0 ==>
      written == |buffer| && |fs.owner| == |old(fs.owner)| + NewSectors(|g.data|, |g'.data|)
    ensures inode.denyWriteCnt == 0 ==>
      inode.data.length == if offset + |buffer| > old(inode.data).length then offset + |buffer|
        else old(inode.data).length
    ensures inode.denyWriteCnt == 0 ==>
      View(fs.disk, inode.data, g') == Overwrite(View(old(fs.disk), old(inode.data), g), offset, buffer)
  {
    hide *;
    ghost var d0, o0, f, data0 := fs.disk, fs.owner, inode.sector, inode.data;
    FileOkFacts(d0, o0, f, data0, g);
    if inode.denyWriteCnt != 0 {
      TouchedNone(d0, o0, f);
      return 0, g;
    }
    var newLength := offset + |buffer|;
    var d;
    d, g' := Extend(fs, inode, newLength, g);
    ghost var d1, o1 := fs.disk, fs.owner;
    FileOkFacts(d1, o1, f, d, g');
    written := WriteLoop(fs, inode.data, buffer, offset, f, g');
    TouchedTwice(d0, o0, d1, o1, fs.disk, o1, f);
    ghost var d2 := fs.disk;
    ViewAfterWrite(Raw(d0, g.data), data0.length, Raw(d2, g'.data), d.length, SECTOR_SIZE * (|g'.data| - |g.data|),
      offset, buffer);
    if newLength > d.eof {
      SystemInode(fs);
      EofWritten(d2, o1, f, d, g', newLength);
      d := d.(eof := newLength);
      fs.BlockWrite(inode.sector, Encode(d));
      inode.data := Decode(fs.disk[inode.sector]);
      TouchedTwice(d0, o0, d2, o1, fs.disk, o1, f);
    }
    FileOkFacts(fs.disk, o1, f, d, g');
  }

  // ----- creation -----

  const INODE_MAGIC: Word := 0x494e_4f44

  /** The sectors of a new file, and then its inode, are on disk. */
  lemma CreatedFile(d0: seq<Sector>, o0: Owner, d1: seq<Sector>, o1: Owner, f: int, d: InodeDisk, g: Layout)
    requires 0 <= f < |d0| && Owns(o0, f, InodeOf(f)) && Sane(d0) && Owns(o0, FREE_MAP_SECTOR, InodeOf(FREE_MAP_SECTOR))
    requires Growing(d0, o0, d1, o1, f, [], g.data, Index) && IndexOk(d1, o1, f, d, g.data, g.inner) &&
      InRange(d1, g.data)
    requires 0 <= d.length < LIMIT * SECTOR_SIZE && |g.data| == SectorsFor(d.length)
    ensures |d0| == |d1| && |d.direct| == DIRECT_NUM
    ensures var d2 := d1[f := Encode(d)];
      FileMid(d2, o1, f, d, g) && Sane(d2) && Touched(d0, o0, d2, o1, f) && View(d2, d, g) == Zeros(d.length)
  {
    hide IndexOk, Raw, Encode, Words;
    IndexDirect(d1, o1, f, d, g);
    var d2 := d1[f := Encode(d)];
    RawGrow(d0, o0, d1, o1, f, [], g.data);
    forall k | 0 <= k < |g.data| ensures d2[g.data[k]] == d1[g.data[k]] { assert Owns(o1, g.data[k], Data(f, k)); }
    RawFrame(d1, d2, g.data);
    IndexFrame(d1, o1, d2, o1, f, d, g.data, g.inner);
    DecodeEncode(d);
    EncodeFirst(d);
    assert Owns(o1, FREE_MAP_SECTOR, o0[FREE_MAP_SECTOR]);
  }

  /** `inode_create`: a file of `length` zero bytes, whose inode is in `sector`. */
  method InodeCreate(fs: FileSys, sector: int, length: int, isdir: bool)
    returns (ok: bool, ghost d: InodeDisk, ghost g: Layout)
    requires fs.Valid() && Sane(fs.disk) && Owns(fs.owner, sector, InodeOf(sector)) && 0 <= length
    requires SectorsFor(length) <= MAX_SECTORS ==> CanGrow(|fs.disk|, fs.owner, 0, length)
    modifies fs, fs.freeMap.bits
    ensures fs.Valid() && Sane(fs.disk) && (ok <==> SectorsFor(length) <= MAX_SECTORS)
    ensures !ok ==> fs.disk == old(fs.disk) && fs.owner == old(fs.owner)
    ensures ok ==> FileOk(fs.disk, fs.owner, sector, d, g) && d.length == length && d.isdir == isdir
    ensures ok ==> View(fs.disk, d, g) == Zeros(length) && |fs.owner| == |old(fs.owner)| + NewSectors(0, |g.data|)
    ensures ok ==> Touched(old(fs.disk), old(fs.owner), fs.disk, fs.owner, sector)
  {
    hide IndexOk, Raw, Words, MapOk, Growing, Encode, Decode, Touched, FileMid, View;
    ghost var d0, o0 := fs.disk, fs.owner;
    var n := InodeDisk(seq(DIRECT_NUM, _ => 0), 0, 0, isdir, 0, 0, INODE_MAGIC);
    EmptyIndex(d0, o0, sector, n);
    InSector(fs, sector);
    ghost var data, inner;
    var r;
    r, n, data, inner := fs.SectorAllocate(SectorsFor(length), n, sector, [], []);
    ok := r == Allocated;
    d, g := n, Layout(data, inner);
    if ok {
      IndexLength(fs.disk, fs.owner, sector, n, data, inner, length);
      n := n.(length := length);
      IndexLength(fs.disk, fs.owner, sector, n, data, inner, length);
      n := n.(eof := length);
      d := n;
      Settled(fs, d0, o0, sector, [], data);
      CreatedFile(d0, o0, fs.disk, fs.owner, sector, n, g);
      fs.BlockWrite(sector, Encode(n));
    }
  }

  lemma EmptyIndex(disk: seq<Sector>, owner: Owner, f: int, d: InodeDisk)
    requires d.direct == seq(DIRECT_NUM, _ => 0) && d.indirect == 0 && d.doubleIndirect == 0
    ensures IndexOk(disk, owner, f, d, [], [])
  {}

  lemma InSector(fs: FileSys, s: int)
    requires fs.Valid() && s in fs.owner
    ensures 0 <= s < |fs.disk| && |fs.owner| <= |fs.disk|
    ensures Owns(fs.owner, FREE_MAP_SECTOR, InodeOf(FREE_MAP_SECTOR))
  {
    OwnerFits(fs.freeMap.All(), |fs.disk|, fs.owner);
  }

  lemma MidDecodes(disk: seq<Sector>, owner: Owner, f: int, d: InodeDisk, g: Layout)
    requires FileMid(disk, owner, f, d, g)
    ensures 0 <= f < |disk| && Decode(disk[f]) == d
  {
    hide IndexOk, Raw, Decode;
  }

  /** A new empty file on any device with room: looking up its byte 0, which it does not have, yields sector 0. */
  method LookupInEmptyFile(device: seq<Sector>) returns (s: Word)
    requires 3 <= |device| < 0x1_0000_0000 && Sane(device)
    ensures s == 0 && s != NO_SECTOR
  {
    hide IndexOk, Raw, Words, MapOk, Growing, Encode, Decode, Touched, FileMid, View, FileSys.Valid;
    var fs := new FileSys(device);
    var sector := fs.AllocInode();
    assert |map[FREE_MAP_SECTOR := InodeOf(FREE_MAP_SECTOR), ROOT_DIR_SECTOR := InodeOf(ROOT_DIR_SECTOR)]| == 2;
    ghost var d, g;
    var ok;
    ok, d, g := InodeCreate(fs, sector.value, 0, false);
    MidDecodes(fs.disk, fs.owner, sector.value, d, g);
    var data := Decode(fs.disk[sector.value]);
    s := ByteToSector(fs, data, 0, sector.value, g);
  }
}
