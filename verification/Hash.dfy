/** Bitwise "and" of unsigned integers and powers of two (lib/kernel/hash.c uses
    masks and turns off low bits to find them). */
module Bits {
  import Division

  function BitAnd(a: nat, b: nat): (r: nat)
    ensures r <= a && r <= b
  {
    if a == 0 || b == 0 then 0 else 2 * BitAnd(a / 2, b / 2) + if a % 2 == 1 && b % 2 == 1 then 1 else 0
  }

  /** x & (x - 1) */
  function TurnOffLeast1Bit(x: nat): (r: nat)
    ensures x > 0 ==> r < x
  {
    if x == 0 then 0 else BitAnd(x, x - 1)
  }

  predicate IsPowerOf2(x: nat) {
    x != 0 && TurnOffLeast1Bit(x) == 0
  }

  lemma {:induction false} AndSelf(a: nat)
    ensures BitAnd(a, a) == a
  {
    if a > 0 { AndSelf(a / 2); }
  }

  /** The low bit, or everything above it, decides what x & (x - 1) is. */
  lemma TurnOffStep(x: nat)
    requires x > 0
    ensures x % 2 == 1 ==> TurnOffLeast1Bit(x) == x - 1
    ensures x % 2 == 0 ==> TurnOffLeast1Bit(x) == 2 * TurnOffLeast1Bit(x / 2)
  {
    if x % 2 == 1 {
      assert (x - 1) / 2 == x / 2;
      AndSelf(x / 2);
    } else {
      assert (x - 1) / 2 == x / 2 - 1;
    }
  }

  lemma {:induction false} PowerOf2(x: nat) returns (k: nat)
    requires IsPowerOf2(x)
    ensures x == Division.Pow2(k)
  {
    TurnOffStep(x);
    if x == 1 {
      k := 0;
    } else {
      var j := PowerOf2(x / 2);
      k := j + 1;
    }
  }

  /** The power of two at or below m. */
  lemma {:induction false} TopBit(m: nat) returns (k: nat)
    requires m > 0
    ensures Division.Pow2(k) <= m < 2 * Division.Pow2(k)
  {
    if m == 1 {
      k := 0;
    } else {
      var j := TopBit(m / 2);
      k := j + 1;
    }
  }

  /** Turning off the low bit of a number that is no power of two keeps its top bit. */
  lemma {:induction false} TurnOffKeepsTop(x: nat, k: nat)
    requires Division.Pow2(k) <= x < 2 * Division.Pow2(k) && !IsPowerOf2(x)
    ensures Division.Pow2(k) <= TurnOffLeast1Bit(x)
  {
    hide BitAnd, TurnOffLeast1Bit;
    TurnOffStep(x);
    if x % 2 == 0 { TurnOffKeepsTop(x / 2, k - 1); }
  }

  /** Masking with 2^k - 1 is the remainder modulo 2^k. */
  lemma MaskIsMod(h: nat, k: nat)
    ensures BitAnd(h, Division.Pow2(k) - 1) == h % Division.Pow2(k)
  {
    hide BitAnd;
    var p := Division.Pow2(k);
    var q := MaskRemainder(h, k);
    Division.QuotientUnique(h, p, q);
  }

  lemma {:induction false} MaskRemainder(h: nat, k: nat) returns (q: nat)
    ensures h == q * Division.Pow2(k) + BitAnd(h, Division.Pow2(k) - 1)
  {
    hide BitAnd;
    if k == 0 {
      q := h;
    } else if h == 0 {
      q := 0;
    } else {
      q := MaskRemainder(h / 2, k - 1);
      var p := Division.Pow2(k - 1);
      MaskHalf(h, p);
      Doubled(h, q, p, BitAnd(h / 2, p - 1));
    }
  }

  lemma Doubled(h: nat, q: nat, p: nat, m: nat)
    requires h / 2 == q * p + m
    ensures h == q * (2 * p) + (2 * m + h % 2)
  {
    assert q * (2 * p) == 2 * (q * p);
  }

  lemma MaskHalf(h: nat, p: nat)
    requires h > 0 && p > 0
    ensures BitAnd(h, 2 * p - 1) == 2 * BitAnd(h / 2, p - 1) + h % 2
  {
    assert (2 * p - 1) / 2 == p - 1 && (2 * p - 1) % 2 == 1;
  }
}

/** Chained hash tables that resize themselves (lib/kernel/hash.c). */
module HashTables {
  import opened Seqs
  import opened Options
  import opened Bits
  import Division

  ghost predicate Equal<E>(less: (E, E) -> bool, a: E, b: E) {
    !less(a, b) && !less(b, a)
  }

  /** What the callers' functions must satisfy: equality under `less` is an
      equivalence, and equal elements have equal hashes. */
  ghost predicate Lawful<E(!new)>(hash: E -> nat, less: (E, E) -> bool) {
    && (forall a: E :: Equal(less, a, a))
    && (forall a: E, b: E, c: E :: Equal(less, a, b) && Equal(less, b, c) ==> Equal(less, a, c))
    && (forall a: E, b: E :: Equal(less, a, b) ==> hash(a) == hash(b))
  }

  /** `find_bucket` */
  function BucketOf<E>(hash: E -> nat, e: E, n: int): (i: int)
    requires n > 0
    ensures 0 <= i < n
  {
    BitAnd(hash(e), n - 1)
  }

  /** All elements of the buckets. */
  ghost function Flat<E>(b: seq<seq<E>>): multiset<E> {
    if b == [] then multiset{} else Flat(b[..|b| - 1]) + multiset(b[|b| - 1])
  }

  /** Every element of bucket i belongs there, and no two of them are equal. */
  ghost predicate BucketOk<E>(hash: E -> nat, less: (E, E) -> bool, s: seq<E>, i: int, n: int)
    requires n > 0
  {
    && (forall x :: 0 <= x < |s| ==> BucketOf(hash, s[x], n) == i)
    && (forall x, y :: 0 <= x < y < |s| ==> !Equal(less, s[x], s[y]))
  }

  ghost predicate Placed<E>(hash: E -> nat, less: (E, E) -> bool, b: seq<seq<E>>) {
    |b| > 0 && forall i :: 0 <= i < |b| ==> BucketOk(hash, less, b[i], i, |b|)
  }

  // ----- elements of the buckets -----

  lemma {:induction false} FlatUpdate<E>(b: seq<seq<E>>, i: int, s: seq<E>)
    requires 0 <= i < |b|
    ensures multiset(b[i]) <= Flat(b) && Flat(b[i := s]) == Flat(b) - multiset(b[i]) + multiset(s)
  {
    var n := |b| - 1;
    if i == n {
      assert b[i := s][..n] == b[..n];
    } else {
      FlatUpdate(b[..n], i, s);
      assert b[i := s][..n] == b[..n][i := s];
    }
  }

  lemma {:induction false} FlatIn<E>(b: seq<seq<E>>, e: E)
    ensures e in Flat(b) <==> exists i :: 0 <= i < |b| && e in b[i]
  {
    if b != [] {
      var n := |b| - 1;
      FlatIn(b[..n], e);
      if i :| 0 <= i < |b| && e in b[i] { if i < n { assert e in b[..n][i]; } }
      if i :| 0 <= i < n && e in b[..n][i] { assert e in b[i]; }
    }
  }

  lemma {:induction false} FlatEmpty<E>(b: seq<seq<E>>)
    requires forall i :: 0 <= i < |b| ==> b[i] == []
    ensures Flat(b) == multiset{}
  {
    if b != [] { FlatEmpty(b[..|b| - 1]); }
  }

  /** An element equal to e can only be in e's bucket. */
  lemma OnlyInBucket<E(!new)>(hash: E -> nat, less: (E, E) -> bool, b: seq<seq<E>>, e: E, x: E)
    requires Lawful(hash, less) && Placed(hash, less, b) && x in Flat(b) && Equal(less, x, e)
    ensures x in b[BucketOf(hash, e, |b|)]
  {
    hide BitAnd;
    FlatIn(b, x);
    var i :| 0 <= i < |b| && x in b[i];
    assert BucketOk(hash, less, b[i], i, |b|);
    var k :| 0 <= k < |b[i]| && b[i][k] == x;
  }

  /** The table is a set: an element is in it once, and equal elements are the same. */
  lemma NoDuplicates<E(!new)>(hash: E -> nat, less: (E, E) -> bool, b: seq<seq<E>>, x: E, y: E)
    requires Lawful(hash, less) && Placed(hash, less, b) && x in Flat(b) && y in Flat(b) && Equal(less, x, y)
    ensures x == y
  {
    hide BitAnd, Flat;
    OnlyInBucket(hash, less, b, x, x);
    OnlyInBucket(hash, less, b, x, y);
    var i := BucketOf(hash, x, |b|);
    assert BucketOk(hash, less, b[i], i, |b|);
    var p :| 0 <= p < |b[i]| && b[i][p] == x;
    var q :| 0 <= q < |b[i]| && b[i][q] == y;
    assert Equal(less, b[i][p], b[i][q]) && Equal(less, b[i][q], b[i][p]);
  }

  // ----- resizing -----

  /** An element is not equal to any element before it in the table. */
  lemma NotEqualEarlier<E(!new)>(hash: E -> nat, less: (E, E) -> bool, b: seq<seq<E>>, i: int, j: int, y: E)
    requires Lawful(hash, less) && Placed(hash, less, b) && 0 <= i < |b| && 0 <= j < |b[i]|
    requires y in Flat(b[..i]) + multiset(b[i][..j])
    ensures !Equal(less, b[i][j], y)
  {
    hide BitAnd, Flat;
    assert BucketOk(hash, less, b[i], i, |b|);
    if y in b[i][..j] {
      var k :| 0 <= k < j && b[i][k] == y;
    } else {
      FlatIn(b[..i], y);
      var k :| 0 <= k < i && y in b[..i][k];
      assert BucketOk(hash, less, b[k], k, |b|);
      var p :| 0 <= p < |b[k]| && b[k][p] == y;
    }
  }

  /** The elements of b before element j of bucket i have been moved to the new
      buckets c. */
  ghost predicate Moved<E>(hash: E -> nat, less: (E, E) -> bool, b: seq<seq<E>>, c: seq<seq<E>>, i: int, j: int) {
    && Placed(hash, less, c) && 0 <= i < |b| && 0 <= j <= |b[i]|
    && Flat(c) == Flat(b[..i]) + multiset(b[i][..j])
  }

  lemma MoveOne<E(!new)>(hash: E -> nat, less: (E, E) -> bool, b: seq<seq<E>>, c: seq<seq<E>>, i: int, j: int)
    requires Lawful(hash, less) && Placed(hash, less, b) && Moved(hash, less, b, c, i, j) && j < |b[i]|
    ensures var k := BucketOf(hash, b[i][j], |c|); Moved(hash, less, b, c[k := [b[i][j]] + c[k]], i, j + 1)
  {
    hide BitAnd, Flat;
    var e := b[i][j];
    var k := BucketOf(hash, e, |c|);
    var s := [e] + c[k];
    assert BucketOk(hash, less, c[k], k, |c|);
    FlatUpdate(c, k, s);
    forall y | 0 <= y < |c[k]| ensures !Equal(less, e, c[k][y]) {
      assert c[k][y] in multiset(c[k]);
      NotEqualEarlier(hash, less, b, i, j, c[k][y]);
    }
    assert BucketOk(hash, less, s, k, |c|);
    assert multiset(s) == multiset{e} + multiset(c[k]);
    assert b[i][..j + 1] == b[i][..j] + [e];
  }

  /** The ideal number of buckets: the largest power of two not above half the elements, but at least four. */
  ghost predicate Ideal(elemCnt: nat, n: nat) {
    IsPowerOf2(n) && n >= 4 && elemCnt / 2 < 2 * n && (n <= elemCnt / 2 || n == 4)
  }

  /** The number of buckets that `rehash` aims for, found by turning off low bits. */
  method BestBucketCount(elemCnt: nat) returns (n: nat)
    ensures Ideal(elemCnt, n)
  {
    hide IsPowerOf2, TurnOffLeast1Bit;
    n := elemCnt / 2;
    if n < 4 { n := 4; }
    ghost var m := n;
    ghost var k := TopBit(m);
    AtLeastFour(m, k);
    while !IsPowerOf2(n)
      invariant 4 <= Division.Pow2(k) <= n <= m < 2 * Division.Pow2(k)
      decreases n
    {
      TurnOffKeepsTop(n, k);
      n := TurnOffLeast1Bit(n);
    }
  }

  lemma AtLeastFour(m: nat, k: nat)
    requires 4 <= m < 2 * Division.Pow2(k)
    ensures 4 <= Division.Pow2(k)
  {
    assert Division.Pow2(0) == 1 && Division.Pow2(1) == 2;
  }

  /** r is the element of s equal to e, if there is one. */
  ghost predicate Lookup<E>(less: (E, E) -> bool, s: multiset<E>, e: E, r: Option<E>) {
    match r
    case Some(x) => x in s && Equal(less, x, e)
    case None => forall x :: x in s ==> !Equal(less, x, e)
  }

  lemma LookupInBucket<E(!new)>(hash: E -> nat, less: (E, E) -> bool, b: seq<seq<E>>, e: E, r: Option<E>)
    requires Lawful(hash, less) && Placed(hash, less, b)
    requires Lookup(less, multiset(b[BucketOf(hash, e, |b|)]), e, r)
    ensures Lookup(less, Flat(b), e, r)
  {
    hide BitAnd, Flat;
    var i := BucketOf(hash, e, |b|);
    match r
    case Some(x) => FlatIn(b, x);
    case None =>
      forall x | x in Flat(b) ensures !Equal(less, x, e) {
        if Equal(less, x, e) { OnlyInBucket(hash, less, b, e, x); }
      }
  }

  lemma {:induction false} WithoutFirst<E>(s: seq<E>, x: E) returns (p: int)
    requires x in s
    ensures 0 <= p < |s| && s[p] == x && Without(s, x) == s[..p] + s[p + 1..]
  {
    if s[0] == x {
      p := 0;
    } else {
      var q := WithoutFirst(s[1..], x);
      p := q + 1;
      assert s[..p] == [s[0]] + s[1..][..q] && s[p + 1..] == s[1..][q + 1..];
    }
  }

  lemma Dropped<E>(s: seq<E>, p: int)
    requires 0 <= p < |s|
    ensures multiset(s[..p] + s[p + 1..]) == multiset(s) - multiset{s[p]}
  {
    assert s == s[..p] + [s[p]] + s[p + 1..];
  }

  lemma InsertPlaced<E(!new)>(hash: E -> nat, less: (E, E) -> bool, b: seq<seq<E>>, e: E)
    requires Lawful(hash, less) && Placed(hash, less, b) && Lookup(less, Flat(b), e, None)
    ensures var k := BucketOf(hash, e, |b|); var c := b[k := [e] + b[k]];
      Placed(hash, less, c) && Flat(c) == Flat(b) + multiset{e} && |Flat(c)| == |Flat(b)| + 1
  {
    hide BitAnd, Flat;
    var k := BucketOf(hash, e, |b|);
    var s := [e] + b[k];
    FlatUpdate(b, k, s);
    assert multiset(s) == multiset{e} + multiset(b[k]);
    assert BucketOk(hash, less, b[k], k, |b|);
    forall y | 0 <= y < |b[k]| ensures !Equal(less, e, b[k][y]) {
      assert b[k][y] in multiset(b[k]);
    }
    assert BucketOk(hash, less, s, k, |b|);
  }

  lemma RemovePlaced<E(!new)>(hash: E -> nat, less: (E, E) -> bool, b: seq<seq<E>>, x: E, e: E)
    requires Lawful(hash, less) && Placed(hash, less, b) && x in Flat(b) && Equal(less, x, e)
    ensures var k := BucketOf(hash, x, |b|); var c := b[k := Without(b[k], x)];
      Placed(hash, less, c) && Flat(c) == Flat(b) - multiset{x} && |Flat(c)| == |Flat(b)| - 1 &&
        Lookup(less, Flat(c), e, None)
  {
    hide BitAnd, Flat, Without;
    var k := BucketOf(hash, x, |b|);
    assert Equal(less, x, x);
    OnlyInBucket(hash, less, b, x, x);
    var p := WithoutFirst(b[k], x);
    var s := Without(b[k], x);
    Dropped(b[k], p);
    FlatUpdate(b, k, s);
    assert BucketOk(hash, less, b[k], k, |b|);
    assert BucketOk(hash, less, s, k, |b|);
    NothingLeft(hash, less, b, k, p, e);
  }

  /** With x gone from its bucket, no element equal to e is left. */
  lemma NothingLeft<E(!new)>(hash: E -> nat, less: (E, E) -> bool, b: seq<seq<E>>, k: int, p: int, e: E)
    requires Lawful(hash, less) && Placed(hash, less, b) && 0 <= k < |b| && 0 <= p < |b[k]| && Equal(less, b[k][p], e)
    requires k == BucketOf(hash, b[k][p], |b|) && Placed(hash, less, b[k := b[k][..p] + b[k][p + 1..]])
    ensures Lookup(less, Flat(b[k := b[k][..p] + b[k][p + 1..]]), e, None)
  {
    hide BitAnd, Flat;
    var x, s := b[k][p], b[k][..p] + b[k][p + 1..];
    var c := b[k := s];
    assert BucketOk(hash, less, b[k], k, |b|);
    forall y | y in Flat(c) ensures !Equal(less, y, e) {
      if Equal(less, y, e) {
        assert Equal(less, e, x);
        assert Equal(less, y, x);
        OnlyInBucket(hash, less, c, x, y);
      }
    }
  }

  class Table<E(==, !new)> {
    const hash: E -> nat
    const less: (E, E) -> bool
    var buckets: seq<seq<E>>
    var elemCnt: nat

    ghost predicate Valid()
      reads this
    {
      && Lawful(hash, less) && |buckets| >= 4 && IsPowerOf2(|buckets|)
      && Placed(hash, less, buckets) && elemCnt == |Flat(buckets)|
    }

    /** The elements in the table. */
    ghost function Elems(): multiset<E>
      reads this
    {
      Flat(buckets)
    }

    /** `hash_init` */
    constructor (hash: E -> nat, less: (E, E) -> bool)
      requires Lawful(hash, less)
      ensures Valid() && Elems() == multiset{} && this.hash == hash && this.less == less
    {
      FlatEmpty<E>([[], [], [], []]);
      this.hash, this.less := hash, less;
      buckets, elemCnt := [[], [], [], []], 0;
    }

    /** `find_elem` */
    method FindElem(bucket: seq<E>, e: E) returns (r: Option<E>)
      ensures Lookup(less, multiset(bucket), e, r)
    {
      var i := 0;
      while i < |bucket|
        invariant 0 <= i <= |bucket| && forall x :: 0 <= x < i ==> !Equal(less, bucket[x], e)
      {
        if !less(bucket[i], e) && !less(e, bucket[i]) {
          return Some(bucket[i]);
        }
        i := i + 1;
      }
      return None;
    }

    /** `hash_insert`: an element that has no equal in the table is added. */
    method Insert(e: E, mallocOk: bool) returns (r: Option<E>)
      requires Valid()
      modifies this
      ensures Valid() && Lookup(less, old(Elems()), e, r)
      ensures Elems() == if r.None? then old(Elems()) + multiset{e} else old(Elems())
      ensures mallocOk ==> Ideal(elemCnt, |buckets|)
    {
      hide BitAnd, Flat, Placed, Lawful, IsPowerOf2, Lookup;
      var k := BucketOf(hash, e, |buckets|);
      r := FindElem(buckets[k], e);
      LookupInBucket(hash, less, buckets, e, r);
      if r.None? { InsertElem(k, e); }
      Rehash(mallocOk);
    }

    /** `hash_replace`: e is in the table afterwards, in place of an equal element. */
    method Replace(e: E, mallocOk: bool) returns (r: Option<E>)
      requires Valid()
      modifies this
      ensures Valid() && Lookup(less, old(Elems()), e, r)
      ensures Elems() == (if r.Some? then old(Elems()) - multiset{r.value} else old(Elems())) + multiset{e}
      ensures mallocOk ==> Ideal(elemCnt, |buckets|)
    {
      hide BitAnd, Flat, Placed, Lawful, IsPowerOf2;
      var k := BucketOf(hash, e, |buckets|);
      r := FindElem(buckets[k], e);
      LookupInBucket(hash, less, buckets, e, r);
      if r.Some? { RemoveElem(r.value, e); }
      InsertElem(k, e);
      Rehash(mallocOk);
    }

    /** `hash_find` */
    method Find(e: E) returns (r: Option<E>)
      requires Valid()
      ensures Lookup(less, Elems(), e, r)
    {
      hide BitAnd, Flat, Placed, Lawful, IsPowerOf2, Lookup;
      r := FindElem(buckets[BucketOf(hash, e, |buckets|)], e);
      LookupInBucket(hash, less, buckets, e, r);
    }

    /** `hash_delete` */
    method Delete(e: E, mallocOk: bool) returns (r: Option<E>)
      requires Valid()
      modifies this
      ensures Valid() && Lookup(less, old(Elems()), e, r)
      ensures Elems() == if r.Some? then old(Elems()) - multiset{r.value} else old(Elems())
    {
      hide BitAnd, Flat, Placed, Lawful, IsPowerOf2;
      r := Find(e);
      if r.Some? {
        RemoveElem(r.value, e);
        Rehash(mallocOk);
      }
    }

    /** `insert_elem`, for an element with no equal in the table. */
    method InsertElem(k: int, e: E)
      requires Valid() && k == BucketOf(hash, e, |buckets|) && Lookup(less, Elems(), e, None)
      modifies this
      ensures Valid() && Elems() == old(Elems()) + multiset{e}
    {
      InsertPlaced(hash, less, buckets, e);
      hide BitAnd, Flat, Placed, Lawful, IsPowerOf2, Lookup, Equal;
      elemCnt := elemCnt + 1;
      buckets := buckets[k := [e] + buckets[k]];
    }

    /** `remove_elem`; afterwards nothing equal to it is left. */
    method RemoveElem(x: E, ghost e: E)
      requires Valid() && x in Elems() && Equal(less, x, e)
      modifies this
      ensures Valid() && Elems() == old(Elems()) - multiset{x} && |buckets| == |old(buckets)|
      ensures Lookup(less, Elems(), e, None)
    {
      RemovePlaced(hash, less, buckets, x, e);
      hide BitAnd, Flat, Placed, Lawful, IsPowerOf2, Lookup, Equal;
      elemCnt := elemCnt - 1;
      var k := BucketOf(hash, x, |buckets|);
      buckets := buckets[k := Without(buckets[k], x)];
    }

    /** `rehash`: changes the buckets, or, if memory is short, nothing; never the
        contents. */
    method Rehash(mallocOk: bool)
      requires Valid()
      modifies this`buckets
      ensures Valid() && Elems() == old(Elems())
      ensures if mallocOk then Ideal(elemCnt, |buckets|) else buckets == old(buckets)
    {
      hide BitAnd, Flat, Placed, Lawful, IsPowerOf2, Moved;
      var n := BestBucketCount(elemCnt);
      if n == |buckets| || !mallocOk { return; }
      var b := buckets;
      var c: seq<seq<E>> := seq(n, _ => []);
      NoneMoved(hash, less, b, c);
      var i := 0;
      while i < |b|
        invariant 0 <= i <= |b| && |c| == n
        invariant if i < |b| then Moved(hash, less, b, c, i, 0) else Placed(hash, less, c) && Flat(c) == Flat(b)
      {
        c := MoveBucket(b, c, i);
        NextBucket(hash, less, b, c, i);
        i := i + 1;
      }
      buckets := c;
    }

    /** The inner loop of `rehash`. */
    method MoveBucket(b: seq<seq<E>>, c0: seq<seq<E>>, i: int) returns (c: seq<seq<E>>)
      requires Lawful(hash, less) && Placed(hash, less, b) && 0 <= i < |b| && Moved(hash, less, b, c0, i, 0)
      ensures |c| == |c0| && Moved(hash, less, b, c, i, |b[i]|)
    {
      hide BitAnd, Flat, Lawful, Placed;
      c := c0;
      var j := 0;
      while j < |b[i]|
        invariant 0 <= j <= |b[i]| && |c| == |c0| && Moved(hash, less, b, c, i, j)
      {
        NonEmpty(hash, less, c);
        MoveOne(hash, less, b, c, i, j);
        var k := BucketOf(hash, b[i][j], |c|);
        c := c[k := [b[i][j]] + c[k]];
        j := j + 1;
      }
    }
  }

  lemma NonEmpty<E>(hash: E -> nat, less: (E, E) -> bool, c: seq<seq<E>>)
    requires Placed(hash, less, c)
    ensures |c| > 0
  {}

  lemma NoneMoved<E>(hash: E -> nat, less: (E, E) -> bool, b: seq<seq<E>>, c: seq<seq<E>>)
    requires |b| > 0 && |c| > 0 && forall i :: 0 <= i < |c| ==> c[i] == []
    ensures Moved(hash, less, b, c, 0, 0)
  {
    FlatEmpty(c);
    assert b[..0] == [] && b[0][..0] == [];
  }

  lemma NextBucket<E>(hash: E -> nat, less: (E, E) -> bool, b: seq<seq<E>>, c: seq<seq<E>>, i: int)
    requires 0 <= i < |b| && Moved(hash, less, b, c, i, |b[i]|)
    ensures if i + 1 < |b| then Moved(hash, less, b, c, i + 1, 0) else Placed(hash, less, c) && Flat(c) == Flat(b)
  {
    assert b[i][..|b[i]|] == b[i] && b[..i + 1][..i] == b[..i];
    assert Flat(b[..i + 1]) == Flat(b[..i]) + multiset(b[i]);
    if i + 1 < |b| { assert b[i + 1][..0] == []; } else { assert b[..i + 1] == b; }
  }
}
