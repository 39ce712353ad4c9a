/** Plain option type used for null pointers and error codes. */
module Options {
  datatype Option<+T> = None | Some(value: T)
}

/** Word-packed bitmaps (lib/kernel/bitmap.c).

    From the outside a bitmap is a sequence of booleans; inside it is an array
    of 32-bit words. Every operation on the words is specified by what it does to
    the booleans, padding bits of the last word included. */
module Bitmaps {
  import opened Options

  const ELEM_BITS: nat := 32

  /** The word in which only bit k is on. */
  function BitMask(k: nat): bv32
    requires k < ELEM_BITS
  {
    (1 as bv32) << k
  }

  predicate TestWord(w: bv32, k: nat)
    requires k < ELEM_BITS
  {
    w & BitMask(k) != 0
  }

  lemma OrSets(w: bv32, k: nat, j: nat)
    requires k < ELEM_BITS && j < ELEM_BITS
    ensures TestWord(w | BitMask(k), j) <==> j == k || TestWord(w, j)
  {
    if j == k { OrSame(w, k); } else { OrOther(w, k, j); }
  }

  lemma OrSame(w: bv32, k: nat)
    requires k < ELEM_BITS
    ensures (w | BitMask(k)) & BitMask(k) != 0
  {}

  lemma OrOther(w: bv32, k: nat, j: nat)
    requires k < ELEM_BITS && j < ELEM_BITS && k != j
    ensures (w | BitMask(k)) & BitMask(j) == w & BitMask(j)
  {
    MasksDisjoint(k, j);
    AndKeeps(w, BitMask(k), BitMask(j));
  }

  lemma AndClears(w: bv32, k: nat, j: nat)
    requires k < ELEM_BITS && j < ELEM_BITS
    ensures TestWord(w & !BitMask(k), j) <==> j != k && TestWord(w, j)
  {
    if j == k { AndSame(w, k); } else { AndOther(w, k, j); }
  }

  lemma AndSame(w: bv32, k: nat)
    requires k < ELEM_BITS
    ensures w & !BitMask(k) & BitMask(k) == 0
  {}

  lemma AndOther(w: bv32, k: nat, j: nat)
    requires k < ELEM_BITS && j < ELEM_BITS && k != j
    ensures w & !BitMask(k) & BitMask(j) == w & BitMask(j)
  {
    MasksDisjoint(k, j);
    AndKeeps(w, BitMask(k), BitMask(j));
  }

  lemma MasksDisjoint(k: nat, j: nat)
    requires k < ELEM_BITS && j < ELEM_BITS && k != j
    ensures BitMask(k) & BitMask(j) == 0
  {}

  lemma AndKeeps(w: bv32, m: bv32, n: bv32)
    requires m & n == 0
    ensures w & !m & n == w & n
    ensures (w | m) & n == w & n
  {}

  /** A word is determined by its 32 bits. */
  lemma WordFromBits(v: bv32, w: bv32)
    requires forall k :: 0 <= k < ELEM_BITS ==> TestWord(v, k) == TestWord(w, k)
    ensures v == w
  {
    var x := v ^ w;
    forall k | 0 <= k < ELEM_BITS ensures !TestWord(x, k) {
      assert TestWord(v, k) == TestWord(w, k);
      OneBit(k);
      XorBit(v, w, BitMask(k));
    }
    AllClear(x);
    XorZero(v, w);
  }

  lemma OneBit(k: nat)
    requires k < ELEM_BITS
    ensures BitMask(k) & (BitMask(k) - 1) == 0
  {}

  lemma XorZero(v: bv32, w: bv32)
    requires v ^ w == 0
    ensures v == w
  {}

  lemma XorBit(v: bv32, w: bv32, m: bv32)
    requires m & (m - 1) == 0 && (v & m != 0) == (w & m != 0)
    ensures (v ^ w) & m == 0
  {}

  lemma AllClear(x: bv32)
    requires forall k :: 0 <= k < ELEM_BITS ==> !TestWord(x, k)
    ensures x == 0
  {
    assert !TestWord(x, 0) && !TestWord(x, 1) && !TestWord(x, 2) && !TestWord(x, 3);
    assert !TestWord(x, 4) && !TestWord(x, 5) && !TestWord(x, 6) && !TestWord(x, 7);
    assert !TestWord(x, 8) && !TestWord(x, 9) && !TestWord(x, 10) && !TestWord(x, 11);
    assert !TestWord(x, 12) && !TestWord(x, 13) && !TestWord(x, 14) && !TestWord(x, 15);
    assert !TestWord(x, 16) && !TestWord(x, 17) && !TestWord(x, 18) && !TestWord(x, 19);
    assert !TestWord(x, 20) && !TestWord(x, 21) && !TestWord(x, 22) && !TestWord(x, 23);
    assert !TestWord(x, 24) && !TestWord(x, 25) && !TestWord(x, 26) && !TestWord(x, 27);
    assert !TestWord(x, 28) && !TestWord(x, 29) && !TestWord(x, 30) && !TestWord(x, 31);
  }

  /** The booleans packed in a sequence of words. */
  function Unpack(words: seq<bv32>): seq<bool> {
    seq(ELEM_BITS * |words|, i requires 0 <= i < ELEM_BITS * |words| => TestWord(words[i / ELEM_BITS], i % ELEM_BITS))
  }

  /** Changing one bit of one word changes one boolean. */
  lemma UnpackUpdate(words: seq<bv32>, i: nat, w: bv32, value: bool)
    requires i < ELEM_BITS * |words|
    requires forall k :: 0 <= k < ELEM_BITS ==>
      TestWord(w, k) == if k == i % ELEM_BITS then value else TestWord(words[i / ELEM_BITS], k)
    ensures Unpack(words[i / ELEM_BITS := w]) == Unpack(words)[i := value]
  {
    var after := Unpack(words[i / ELEM_BITS := w]);
    forall j | 0 <= j < |after| ensures after[j] == Unpack(words)[i := value][j] {
      assert j / ELEM_BITS == i / ELEM_BITS && j % ELEM_BITS == i % ELEM_BITS ==> j == i;
    }
  }

  /** Equal booleans mean equal words, bit for bit. */
  lemma UnpackInjective(a: seq<bv32>, b: seq<bv32>)
    requires Unpack(a) == Unpack(b)
    ensures a == b
  {
    assert |Unpack(a)| == |Unpack(b)|;
    forall i | 0 <= i < |a| ensures a[i] == b[i] {
      forall k | 0 <= k < ELEM_BITS ensures TestWord(a[i], k) == TestWord(b[i], k) {
        var n := ELEM_BITS * i + k;
        assert n / ELEM_BITS == i && n % ELEM_BITS == k;
        assert Unpack(a)[n] == Unpack(b)[n];
      }
      WordFromBits(a[i], b[i]);
    }
  }

  // ----- what the operations do to the booleans -----

  /** The cnt bits of b from start on all have the given value. */
  predicate Uniform(b: seq<bool>, start: nat, cnt: nat, value: bool)
    requires start + cnt <= |b|
  {
    forall j :: start <= j < start + cnt ==> b[j] == value
  }

  /** b with the cnt bits from start on set to value. */
  function Filled(b: seq<bool>, start: nat, cnt: nat, value: bool): (r: seq<bool>)
    requires start + cnt <= |b|
    ensures |r| == |b|
    ensures forall j :: 0 <= j < |b| ==> r[j] == if start <= j < start + cnt then value else b[j]
  {
    b[..start] + seq(cnt, _ => value) + b[start + cnt..]
  }

  /** i is where the first group of cnt bits with the given value, at or after
      start and below n, begins. */
  ghost predicate IsFirst(b: seq<bool>, n: nat, start: nat, cnt: nat, value: bool, i: nat)
    requires n <= |b|
  {
    && start <= i && i + cnt <= n
    && Uniform(b, i, cnt, value)
    && forall k :: start <= k < i ==> !Uniform(b, k, cnt, value)
  }

  class Bitmap {
    const bitCnt: nat
    const bits: array<bv32>

    ghost predicate Valid()
      reads this
    {
      bitCnt <= ELEM_BITS * bits.Length
    }

    /** All bits, the padding of the last word included. */
    ghost function All(): (b: seq<bool>)
      reads this, bits
      ensures |b| == ELEM_BITS * bits.Length
    {
      Unpack(bits[..])
    }

    /** `bitmap_create`: the bits are all off; the padding holds what the memory held. */
    constructor (n: nat)
      ensures Valid() && bitCnt == n && fresh(bits)
      ensures Uniform(All(), 0, n, false)
    {
      bitCnt := n;
      bits := new bv32[(n + ELEM_BITS - 1) / ELEM_BITS];
      new;
      SetMultiple(0, n, false);
    }

    method Mark(i: nat)
      requires Valid() && i < bitCnt
      modifies bits
      ensures All() == old(All())[i := true]
    {
      ghost var was := bits[..];
      var w := bits[i / ELEM_BITS] | BitMask(i % ELEM_BITS);
      forall k | 0 <= k < ELEM_BITS
        ensures TestWord(w, k) == if k == i % ELEM_BITS then true else TestWord(was[i / ELEM_BITS], k)
      {
        OrSets(was[i / ELEM_BITS], i % ELEM_BITS, k);
      }
      UnpackUpdate(was, i, w, true);
      bits[i / ELEM_BITS] := w;
      assert bits[..] == was[i / ELEM_BITS := w];
    }

    method Reset(i: nat)
      requires Valid() && i < bitCnt
      modifies bits
      ensures All() == old(All())[i := false]
    {
      ghost var was := bits[..];
      var w := bits[i / ELEM_BITS] & !BitMask(i % ELEM_BITS);
      forall k | 0 <= k < ELEM_BITS
        ensures TestWord(w, k) == if k == i % ELEM_BITS then false else TestWord(was[i / ELEM_BITS], k)
      {
        AndClears(was[i / ELEM_BITS], i % ELEM_BITS, k);
      }
      UnpackUpdate(was, i, w, false);
      bits[i / ELEM_BITS] := w;
      assert bits[..] == was[i / ELEM_BITS := w];
    }

    method Set(i: nat, value: bool)
      requires Valid() && i < bitCnt
      modifies bits
      ensures All() == old(All())[i := value]
    {
      if value { Mark(i); } else { Reset(i); }
    }

    method Test(i: nat) returns (r: bool)
      requires Valid() && i < bitCnt
      ensures r == All()[i]
    {
      r := TestWord(bits[i / ELEM_BITS], i % ELEM_BITS);
    }

    method SetMultiple(start: nat, cnt: nat, value: bool)
      requires Valid() && start + cnt <= bitCnt
      modifies bits
      ensures All() == Filled(old(All()), start, cnt, value)
    {
      var i := 0;
      while i < cnt
        invariant 0 <= i <= cnt
        invariant All() == Filled(old(All()), start, i, value)
      {
        Set(start + i, value);
        i := i + 1;
      }
    }

    method Contains(start: nat, cnt: nat, value: bool) returns (r: bool)
      requires Valid() && start + cnt <= bitCnt
      ensures r == !Uniform(All(), start, cnt, !value)
    {
      var i := 0;
      while i < cnt
        invariant 0 <= i <= cnt
        invariant Uniform(All(), start, i, !value)
      {
        var b := Test(start + i);
        if b == value { return true; }
        i := i + 1;
      }
      return false;
    }

    method Scan(start: nat, cnt: nat, value: bool) returns (r: Option<nat>)
      requires Valid() && start <= bitCnt
      ensures r.Some? ==> IsFirst(All(), bitCnt, start, cnt, value, r.value)
      ensures r.None? ==> forall k :: start <= k && k + cnt <= bitCnt ==> !Uniform(All(), k, cnt, value)
    {
      if cnt <= bitCnt {
        var last, i := bitCnt - cnt, start;
        while i <= last
          invariant start <= i
          invariant forall k :: start <= k < i && k <= last ==> !Uniform(All(), k, cnt, value)
        {
          var other := Contains(i, cnt, !value);
          if !other { return Some(i); }
          i := i + 1;
        }
      }
      return None;
    }

    method ScanAndFlip(start: nat, cnt: nat, value: bool) returns (r: Option<nat>)
      requires Valid() && start <= bitCnt
      modifies bits
      ensures r.Some? ==> IsFirst(old(All()), bitCnt, start, cnt, value, r.value)
      ensures r.Some? ==> All() == Filled(old(All()), r.value, cnt, !value)
      ensures r.None? ==> All() == old(All())
      ensures r.None? ==> forall k :: start <= k && k + cnt <= bitCnt ==> !Uniform(old(All()), k, cnt, value)
    {
      r := Scan(start, cnt, value);
      if r.Some? { SetMultiple(r.value, cnt, !value); }
    }
  }
}
