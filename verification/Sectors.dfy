/** Disk sectors as bytes and as 32-bit words, and the on-disk inode
    (struct inode_disk of filesys/inode.c, one sector of 128 words). */
module Sectors {
  const SECTOR_SIZE: nat := 512
  const SLOTS: nat := 128      // block numbers in an index block
  const DIRECT_NUM: nat := 10

  type Byte = b: int | 0 <= b < 256
  type Word = w: int | 0 <= w < 0x1_0000_0000
  type Sector = s: seq<Byte> | |s| == 512 witness seq(512, _ => 0)

  function Zeros(n: nat): (z: seq<Byte>)
    ensures |z| == n && forall i :: 0 <= i < n ==> z[i] == 0
  {
    seq(n, _ => 0)
  }

  // ----- words in bytes, little end first -----

  function WordBytes(w: Word): (b: seq<Byte>)
    ensures |b| == 4 && FromBytes(b) == w
  {
    var q1 := w / 0x100;
    var q2 := q1 / 0x100;
    [w % 0x100, q1 % 0x100, q2 % 0x100, q2 / 0x100]
  }

  function FromBytes(b: seq<Byte>): Word
    requires |b| == 4
  {
    var (b0: int, b1: int, b2: int, b3: int) := (b[0], b[1], b[2], b[3]);
    b0 + 0x100 * (b1 + 0x100 * (b2 + 0x100 * b3))
  }

  function Pack(ws: seq<Word>): (b: seq<Byte>)
    ensures |b| == 4 * |ws|
  {
    if ws == [] then [] else WordBytes(ws[0]) + Pack(ws[1..])
  }

  function Words(b: seq<Byte>): (ws: seq<Word>)
    ensures |ws| == |b| / 4
  {
    if |b| < 4 then [] else [FromBytes(b[..4])] + Words(b[4..])
  }

  /** A buffer of words written to a sector reads back the same. */
  lemma {:induction false} WordsPack(ws: seq<Word>)
    ensures Words(Pack(ws)) == ws
  {
    if ws != [] {
      var b := Pack(ws);
      assert b[..4] == WordBytes(ws[0]) && b[4..] == Pack(ws[1..]);
      WordsPack(ws[1..]);
    }
  }

  // ----- the on-disk inode -----

  datatype InodeDisk = InodeDisk(direct: seq<Word>, indirect: Word, doubleIndirect: Word,
                                 isdir: bool, eof: Word, length: Word, magic: Word)

  function ToWords(d: InodeDisk): (ws: seq<Word>)
    requires |d.direct| == DIRECT_NUM
    ensures |ws| == SLOTS
  {
    d.direct + [d.indirect, d.doubleIndirect, if d.isdir then 1 else 0, d.eof, d.length, d.magic]
    + seq(112, _ => 0)
  }

  function FromWords(ws: seq<Word>): InodeDisk
    requires |ws| == SLOTS
  {
    InodeDisk(ws[..DIRECT_NUM], ws[10], ws[11], ws[12] != 0, ws[13], ws[14], ws[15])
  }

  function Encode(d: InodeDisk): Sector
    requires |d.direct| == DIRECT_NUM
  {
    Pack(ToWords(d))
  }

  function Decode(s: Sector): InodeDisk {
    FromWords(Words(s))
  }

  /** The on-disk inode written to a sector reads back the same. */
  lemma DecodeEncode(d: InodeDisk)
    requires |d.direct| == DIRECT_NUM
    ensures Decode(Encode(d)) == d
  {
    WordsPack(ToWords(d));
    assert ToWords(d)[..DIRECT_NUM] == d.direct;
  }
}
