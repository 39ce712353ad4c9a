/** Orders, runs and stability on sequences: what the list algorithms of
    lib/kernel/list.c compute. The order is a function on elements, as the
    list_less_func arguments of the source are. */
module Runs {
  /** A strict weak order on the elements of s. */
  ghost predicate StrictWeak<T>(less: (T, T) -> bool, s: seq<T>) {
    && (forall a, b :: a in s && b in s && less(a, b) ==> !less(b, a))
    && (forall a, b, c :: a in s && b in s && c in s && !less(b, a) && !less(c, b) ==> !less(c, a))
  }

  lemma Asymmetric<T>(less: (T, T) -> bool, s: seq<T>, i: int, j: int)
    requires StrictWeak(less, s) && 0 <= i < |s| && 0 <= j < |s| && less(s[i], s[j])
    ensures !less(s[j], s[i])
  {}

  lemma Transitive<T>(less: (T, T) -> bool, s: seq<T>, i: int, j: int, k: int)
    requires StrictWeak(less, s) && 0 <= i < |s| && 0 <= j < |s| && 0 <= k < |s| && !less(s[j], s[i]) &&
      !less(s[k], s[j])
    ensures !less(s[k], s[i])
  {}

  /** t[lo..hi] is in nondecreasing order. */
  ghost predicate SortedRange<T>(less: (T, T) -> bool, t: seq<T>, lo: int, hi: int)
    requires 0 <= lo <= hi <= |t|
  {
    forall x, y :: lo <= x < y < hi ==> !less(t[y], t[x])
  }

  /** Equivalent elements of t are in the order of their ranks. */
  ghost predicate Stable<T>(less: (T, T) -> bool, rank: map<T, int>, t: seq<T>) {
    && (forall x :: 0 <= x < |t| ==> t[x] in rank)
    && forall x, y :: 0 <= x < y < |t| && !less(t[x], t[y]) && !less(t[y], t[x]) ==> rank[t[x]] < rank[t[y]]
  }

  // ----- ordered insertion -----

  /** t with x in front of the first element that x is less than. */
  function InsertOrdered<T>(less: (T, T) -> bool, t: seq<T>, x: T): (r: seq<T>)
    ensures |r| == |t| + 1
  {
    if t == [] || less(x, t[0]) then [x] + t else [t[0]] + InsertOrdered(less, t[1..], x)
  }

  lemma {:induction false} InsertedAt<T>(less: (T, T) -> bool, t: seq<T>, x: T) returns (p: int)
    ensures 0 <= p <= |t| && InsertOrdered(less, t, x) == t[..p] + [x] + t[p..]
    ensures (forall k :: 0 <= k < p ==> !less(x, t[k])) && (p < |t| ==> less(x, t[p]))
  {
    if t == [] || less(x, t[0]) {
      p := 0;
    } else {
      var q := InsertedAt(less, t[1..], x);
      p := q + 1;
      assert t[..p] == [t[0]] + t[1..][..q] && t[p..] == t[1..][q..];
    }
  }

  /** The place is the only one with these properties. */
  lemma InsertPlace<T>(less: (T, T) -> bool, t: seq<T>, x: T, p: int)
    requires 0 <= p <= |t| && (forall k :: 0 <= k < p ==> !less(x, t[k])) && (p < |t| ==> less(x, t[p]))
    ensures InsertOrdered(less, t, x) == t[..p] + [x] + t[p..]
  {
    var q := InsertedAt(less, t, x);
  }

  /** Insertion keeps a sequence sorted, adds x, and puts it after its equivalents. */
  lemma InsertSorted<T>(less: (T, T) -> bool, t: seq<T>, x: T)
    requires StrictWeak(less, t + [x]) && SortedRange(less, t, 0, |t|)
    ensures SortedRange(less, InsertOrdered(less, t, x), 0, |t| + 1)
    ensures multiset(InsertOrdered(less, t, x)) == multiset(t) + multiset{x}
  {
    hide InsertOrdered, StrictWeak;
    var p := InsertedAt(less, t, x);
    var s := t + [x];
    forall k | p <= k < |t| ensures !less(t[k], x) {
      assert s[|t|] == x && s[k] == t[k] && s[p] == t[p];
      Asymmetric(less, s, |t|, p);
      if k > p { Transitive(less, s, |t|, p, k); }
    }
    InsertBetween(less, t, x, p);
    assert t == t[..p] + t[p..];
  }

  lemma InsertBetween<T>(less: (T, T) -> bool, t: seq<T>, x: T, p: int)
    requires 0 <= p <= |t| && SortedRange(less, t, 0, |t|)
    requires (forall k :: 0 <= k < p ==> !less(x, t[k])) && (forall k :: p <= k < |t| ==> !less(t[k], x))
    ensures SortedRange(less, t[..p] + [x] + t[p..], 0, |t| + 1)
  {
    var r := t[..p] + [x] + t[p..];
    assert forall k :: 0 <= k < |r| ==> r[k] == if k < p then t[k] else if k == p then x else t[k - 1];
  }

  // ----- merging in place -----

  /** t with element m moved to before position p. */
  function Move<T>(t: seq<T>, p: int, m: int): (r: seq<T>)
    requires 0 <= p <= m < |t|
    ensures |r| == |t|
    ensures forall k :: 0 <= k < |t| ==> r[k] == if k < p then t[k] else if k == p then t[m]
      else if k <= m then t[k - 1] else t[k]
  {
    t[..p] + [t[m]] + t[p..m] + t[m + 1..]
  }

  lemma MovePermutes<T>(t: seq<T>, p: int, m: int)
    requires 0 <= p <= m < |t|
    ensures multiset(Move(t, p, m)) == multiset(t)
    ensures forall a :: a in Move(t, p, m) <==> a in t
  {
    assert t == t[..p] + t[p..m] + [t[m]] + t[m + 1..];
    assert forall a :: a in Move(t, p, m) <==> a in multiset(Move(t, p, m));
    assert forall a :: a in t <==> a in multiset(t);
  }

  /** The state of the merge of t[i..m] and t[m..e]: t[i..p] is output, t[p..m] and
      t[m..e] are what is left of the two runs. */
  ghost predicate Merging<T>(less: (T, T) -> bool, t: seq<T>, i: int, p: int, m: int, e: int) {
    && 0 <= i <= p <= m <= e <= |t|
    && SortedRange(less, t, i, p) && SortedRange(less, t, p, m) && SortedRange(less, t, m, e)
    && forall x, y :: i <= x < p <= y < e ==> !less(t[y], t[x])
  }

  lemma MergeStart<T>(less: (T, T) -> bool, t: seq<T>, i: int, m: int, e: int)
    requires 0 <= i <= m <= e <= |t| && SortedRange(less, t, i, m) && SortedRange(less, t, m, e)
    ensures Merging(less, t, i, i, m, e)
  {}

  lemma MergeAdvance<T>(less: (T, T) -> bool, t: seq<T>, i: int, p: int, m: int, e: int)
    requires StrictWeak(less, t) && Merging(less, t, i, p, m, e) && p < m < e && !less(t[m], t[p])
    ensures Merging(less, t, i, p + 1, m, e)
  {
    forall y | p + 1 <= y < e ensures !less(t[y], t[p]) {
      if y > m { assert t[p] in t && t[m] in t && t[y] in t; }
    }
  }

  lemma MergeMove<T>(less: (T, T) -> bool, t: seq<T>, i: int, p: int, m: int, e: int)
    requires StrictWeak(less, t) && Merging(less, t, i, p, m, e) && p < m < e && less(t[m], t[p])
    ensures Merging(less, Move(t, p, m), i, p + 1, m + 1, e)
  {
    var r := Move(t, p, m);
    forall y | p <= y < e ensures !less(t[y], t[m]) {
      if y < m { MovedBelow(less, t, p, m, y); }
      if y == m { assert t[m] in t; }
    }
    forall x, y | i <= x < p + 1 <= y < e ensures !less(r[y], r[x]) {
      var y' := if y <= m then y - 1 else y;
      assert r[y] == t[y'] && p <= y' < e;
    }
  }

  /** The element moved is less than every element it jumps over. */
  lemma MovedBelow<T>(less: (T, T) -> bool, t: seq<T>, p: int, m: int, y: int)
    requires StrictWeak(less, t) && 0 <= p <= y < m < |t| && less(t[m], t[p]) && SortedRange(less, t, p, m)
    ensures less(t[m], t[y])
  {
    assert t[p] in t && t[y] in t && t[m] in t;
  }

  lemma MoveStable<T>(less: (T, T) -> bool, rank: map<T, int>, t: seq<T>, p: int, m: int)
    requires StrictWeak(less, t) && Stable(less, rank, t) && 0 <= p < m < |t| && less(t[m], t[p]) &&
      SortedRange(less, t, p, m)
    ensures Stable(less, rank, Move(t, p, m)) && StrictWeak(less, Move(t, p, m))
  {
    var r := Move(t, p, m);
    MovePermutes(t, p, m);
    forall x, y | 0 <= x < y < |r| && !less(r[x], r[y]) && !less(r[y], r[x]) ensures rank[r[x]] < rank[r[y]] {
      if x == p && y <= m { MovedBelow(less, t, p, m, y - 1); }
    }
  }

  /** When one of the two runs is used up, the whole range is sorted. */
  lemma MergedSorted<T>(less: (T, T) -> bool, t: seq<T>, i: int, p: int, m: int, e: int)
    requires Merging(less, t, i, p, m, e) && (p == m || m == e)
    ensures SortedRange(less, t, i, e)
  {}

  /** The whole state of a merge of t0[i..m] and t0[m..e]. */
  ghost predicate MergeState<T>(less: (T, T) -> bool, rank: map<T, int>, t0: seq<T>, t: seq<T>, i: int, p: int,
                                m: int, e: int) {
    && |t| == |t0| && multiset(t) == multiset(t0) && (forall x :: x in t ==> x in t0)
    && Merging(less, t, i, p, m, e) && t[..i] == t0[..i] && t[e..] == t0[e..]
    && StrictWeak(less, t) && Stable(less, rank, t)
  }

  lemma MergeStateAdvance<T>(less: (T, T) -> bool, rank: map<T, int>, t0: seq<T>, t: seq<T>, i: int, p: int, m: int,
                             e: int)
    requires MergeState(less, rank, t0, t, i, p, m, e) && p < m < e && !less(t[m], t[p])
    ensures MergeState(less, rank, t0, t, i, p + 1, m, e)
  {
    hide StrictWeak, Stable, SortedRange;
    MergeAdvance(less, t, i, p, m, e);
  }

  lemma MergeStateMove<T>(less: (T, T) -> bool, rank: map<T, int>, t0: seq<T>, t: seq<T>, i: int, p: int, m: int,
                          e: int)
    requires MergeState(less, rank, t0, t, i, p, m, e) && p < m < e && less(t[m], t[p])
    ensures MergeState(less, rank, t0, Move(t, p, m), i, p + 1, m + 1, e)
  {
    hide StrictWeak, Stable, SortedRange;
    MergeMove(less, t, i, p, m, e);
    MoveStable(less, rank, t, p, m);
    MovePermutes(t, p, m);
  }

  lemma MergeStateEnd<T>(less: (T, T) -> bool, rank: map<T, int>, t0: seq<T>, t: seq<T>, i: int, p: int, m: int, e: int)
    requires MergeState(less, rank, t0, t, i, p, m, e) && (p == m || m == e)
    ensures MergeState(less, rank, t0, t, i, e, e, e)
  {
    hide StrictWeak, Stable;
    MergedSorted(less, t, i, p, m, e);
  }

  // ----- runs -----

  /** The number of maximal nondecreasing runs. */
  ghost function RunCount<T>(less: (T, T) -> bool, s: seq<T>): nat {
    if |s| <= 1 then |s|
    else RunCount(less, s[..|s| - 1]) + if less(s[|s| - 1], s[|s| - 2]) then 1 else 0
  }

  lemma {:induction false} RunCountConcat<T>(less: (T, T) -> bool, a: seq<T>, b: seq<T>)
    requires |a| > 0 && |b| > 0
    ensures RunCount(less, a + b) == RunCount(less, a) + RunCount(less, b) - if less(b[0], a[|a| - 1]) then 0 else 1
  {
    var c := a + b;
    if |b| == 1 {
      assert c[..|c| - 1] == a;
    } else {
      var b' := b[..|b| - 1];
      assert c[..|c| - 1] == a + b';
      RunCountConcat(less, a, b');
    }
  }

  lemma {:induction false} RunCountPositive<T>(less: (T, T) -> bool, s: seq<T>)
    ensures RunCount(less, s) >= 1 <==> |s| > 0
  {
    if |s| > 1 { RunCountPositive(less, s[..|s| - 1]); }
  }

  /** One run is what a sorted sequence has. */
  lemma {:induction false} OneRun<T>(less: (T, T) -> bool, s: seq<T>)
    ensures RunCount(less, s) <= 1 <==> forall x :: 0 < x < |s| ==> !less(s[x], s[x - 1])
  {
    if |s| > 1 {
      var s' := s[..|s| - 1];
      OneRun(less, s');
      RunCountPositive(less, s');
    }
  }

  /** Adjacent elements in order are enough. */
  lemma {:induction false} AdjacentSorted<T>(less: (T, T) -> bool, t: seq<T>, lo: int, hi: int)
    requires StrictWeak(less, t) && 0 <= lo <= hi <= |t| && forall x :: lo < x < hi ==> !less(t[x], t[x - 1])
    ensures SortedRange(less, t, lo, hi)
    decreases hi - lo
  {
    if hi - lo > 1 {
      AdjacentSorted(less, t, lo, hi - 1);
      forall x | lo <= x < hi - 1 ensures !less(t[hi - 1], t[x]) {
        assert t[x] in t && t[hi - 2] in t && t[hi - 1] in t;
        if x < hi - 2 { assert !less(t[hi - 2], t[x]); }
      }
    }
  }
}

/** Passes of a natural merge sort over a sequence. */
module Passes {
  import opened Runs

  /** t[lo..hi] is a run that the element after it, if any, does not continue. */
  ghost predicate IsRun<T>(less: (T, T) -> bool, t: seq<T>, lo: int, hi: int) {
    0 <= lo < hi <= |t| && (forall x :: lo < x < hi ==> !less(t[x], t[x - 1])) && (hi < |t| ==> less(t[hi], t[hi - 1]))
  }

  /** A maximal run at the front of s is one run more than the rest. */
  lemma RunPrefix<T>(less: (T, T) -> bool, s: seq<T>, k: int)
    requires IsRun(less, s, 0, k)
    ensures RunCount(less, s) == 1 + RunCount(less, s[k..])
  {
    OneRun(less, s[..k]);
    RunCountPositive(less, s[..k]);
    if k < |s| {
      RunCountConcat(less, s[..k], s[k..]);
      assert s == s[..k] + s[k..];
    } else {
      assert s[..k] == s;
    }
  }

  /** A sorted piece appended adds at most one run. */
  lemma RunAppend<T>(less: (T, T) -> bool, t: seq<T>, q: int, e: int)
    requires 0 <= q < e <= |t| && SortedRange(less, t, q, e)
    ensures RunCount(less, t[..e]) <= RunCount(less, t[..q]) + 1
  {
    var a, b := t[..q], t[q..e];
    assert forall x :: 0 < x < |b| ==> !less(b[x], b[x - 1]);
    OneRun(less, b);
    assert t[..e] == a + b;
    if q > 0 { RunCountConcat(less, a, b); } else { assert a + b == b; }
  }

  /** A pass over s0 has come to position q with cnt output runs; the rest of t is as
      it was, and each output run has used up two runs of s0. */
  ghost predicate PassState<T>(less: (T, T) -> bool, rank: map<T, int>, s0: seq<T>, t: seq<T>, q: int, cnt: int) {
    && |t| == |s0| && 0 <= q <= |t| && 0 <= cnt && multiset(t) == multiset(s0) && t[q..] == s0[q..]
    && StrictWeak(less, t) && Stable(less, rank, t)
    && RunCount(less, t[..q]) <= cnt && RunCount(less, s0) == 2 * cnt + RunCount(less, s0[q..])
  }

  /** The pass is over: it has at least halved the number of runs. */
  ghost predicate PassDone<T>(less: (T, T) -> bool, rank: map<T, int>, s0: seq<T>, t: seq<T>, cnt: int) {
    && multiset(t) == multiset(s0) && StrictWeak(less, t) && Stable(less, rank, t)
    && RunCount(less, t) <= cnt <= (RunCount(less, s0) + 1) / 2
  }

  lemma PassStart<T>(less: (T, T) -> bool, rank: map<T, int>, s0: seq<T>)
    requires StrictWeak(less, s0) && Stable(less, rank, s0)
    ensures PassState(less, rank, s0, s0, 0, 0)
  {
    hide StrictWeak, Stable;
    assert s0[..0] == [] && s0[0..] == s0;
  }

  lemma PassStep<T>(less: (T, T) -> bool, rank: map<T, int>, s0: seq<T>, t: seq<T>, t': seq<T>, q: int, k: int,
                    e: int, cnt: int)
    requires PassState(less, rank, s0, t, q, cnt) && IsRun(less, t, q, k) && IsRun(less, t, k, e)
    requires MergeState(less, rank, t, t', q, e, e, e)
    ensures PassState(less, rank, s0, t', e, cnt + 1)
  {
    hide StrictWeak, Stable, RunCount, Merging, SortedRange, IsRun;
    TwoRuns(less, t, q, k, e);
    SortedMerge(less, rank, t, t', q, e);
    RunAppend(less, t', q, e);
    SameSuffix(s0, t, q, e);
  }

  lemma SameSuffix<T>(s0: seq<T>, t: seq<T>, q: int, e: int)
    requires 0 <= q <= e <= |t| == |s0| && s0[q..] == t[q..]
    ensures s0[e..] == t[e..]
  {
    assert s0[q..][e - q..] == s0[e..] && t[q..][e - q..] == t[e..];
  }

  lemma SortedMerge<T>(less: (T, T) -> bool, rank: map<T, int>, t: seq<T>, t': seq<T>, q: int, e: int)
    requires MergeState(less, rank, t, t', q, e, e, e)
    requires q < e
    ensures 0 <= q < e <= |t'| && SortedRange(less, t', q, e)
  {}

  lemma TwoRuns<T>(less: (T, T) -> bool, t: seq<T>, q: int, k: int, e: int)
    requires IsRun(less, t, q, k) && IsRun(less, t, k, e)
    ensures 0 <= q < e <= |t| && RunCount(less, t[q..]) == 2 + RunCount(less, t[e..])
  {
    hide RunCount;
    assert IsRun(less, t[q..], 0, k - q) && IsRun(less, t[k..], 0, e - k);
    RunPrefix(less, t[q..], k - q);
    RunPrefix(less, t[k..], e - k);
    assert t[q..][k - q..] == t[k..] && t[k..][e - k..] == t[e..];
  }

  lemma PassLast<T>(less: (T, T) -> bool, rank: map<T, int>, s0: seq<T>, t: seq<T>, q: int, cnt: int)
    requires PassState(less, rank, s0, t, q, cnt) && IsRun(less, t, q, |t|)
    ensures PassDone(less, rank, s0, t, cnt + 1)
  {
    hide Stable;
    assert IsRun(less, t[q..], 0, |t| - q);
    RunPrefix(less, t[q..], |t| - q);
    assert t[q..][|t| - q..] == [];
    AdjacentSorted(less, t, q, |t|);
    RunAppend(less, t, q, |t|);
    assert t[..|t|] == t;
  }

  lemma PassEnd<T>(less: (T, T) -> bool, rank: map<T, int>, s0: seq<T>, t: seq<T>, cnt: int)
    requires PassState(less, rank, s0, t, |t|, cnt)
    ensures PassDone(less, rank, s0, t, cnt)
  {
    hide StrictWeak, Stable;
    assert t[..|t|] == t;
  }
}

/** Doubly linked lists with head and tail elements (lib/kernel/list.c). */
module Lists {
  import opened Seqs
  import opened Runs
  import opened Passes

  class Elem {
    var prev: Elem?
    var next: Elem?

    constructor () {
      prev, next := null, null;
    }
  }

  type Less = (Elem, Elem) -> bool

  /** Consecutive elements of s are linked both ways. */
  ghost predicate Chain(s: seq<Elem>)
    reads s
  {
    && (forall k {:trigger s[k].next} :: 0 <= k < |s| - 1 ==> s[k].next == s[k + 1])
    && (forall k {:trigger s[k].prev} :: 0 < k < |s| ==> s[k].prev == s[k - 1])
  }

  /** s is a whole list: the head, the elements in order, the tail. */
  ghost predicate Linked(s: seq<Elem>)
    reads s
  {
    |s| >= 2 && Once(s) && Chain(s) && s[0].prev == null && s[|s| - 1].next == null
  }

  lemma ChainConcat(a: seq<Elem>, b: seq<Elem>)
    requires Chain(a) && Chain(b) && (|a| > 0 && |b| > 0 ==> a[|a| - 1].next == b[0] && b[0].prev == a[|a| - 1])
    ensures Chain(a + b)
  {}

  /** `list_insert`: elem, in no list, goes in before element number p. */
  method ListInsert(before: Elem, elem: Elem, ghost s: seq<Elem>, ghost p: int)
    requires Linked(s) && 1 <= p < |s| && before == s[p] && elem !in s
    modifies s, elem
    ensures Linked(s[..p] + [elem] + s[p..])
  {
    elem.prev := before.prev;
    elem.next := before;
    before.prev.next := elem;
    before.prev := elem;
    ChainConcat(s[..p], [elem]);
    ChainConcat(s[..p] + [elem], s[p..]);
  }

  /** `list_remove` */
  method ListRemove(elem: Elem, ghost s: seq<Elem>, ghost p: int) returns (after: Elem)
    requires Linked(s) && 1 <= p < |s| - 1 && elem == s[p]
    modifies s
    ensures Linked(s[..p] + s[p + 1..]) && after == s[p + 1]
  {
    elem.prev.next := elem.next;
    elem.next.prev := elem.prev;
    ChainConcat(s[..p], s[p + 1..]);
    after := elem.next;
  }

  /** The elements of s are among those that an operation may relink. */
  ghost predicate Within(s: seq<Elem>, r: set<Elem>) {
    forall k :: 0 <= k < |s| ==> s[k] in r
  }

  /** The list after elements i .. j have been moved to before element p. */
  ghost function Transplanted(s: seq<Elem>, p: int, i: int, j: int): seq<Elem>
    requires 1 <= i < j < |s| && (1 <= p < i || j <= p < |s|)
  {
    if p < i then s[..p] + s[i..j] + s[p..i] + s[j..] else s[..i] + s[j..p] + s[i..j] + s[p..]
  }

  /** The links that `list_splice` leaves behind. */
  ghost predicate Rewired(s: seq<Elem>, p: int, i: int, j: int)
    requires 1 <= i < j < |s| && (1 <= p < i || j <= p < |s|)
    reads s
  {
    && (forall k {:trigger s[k].next} :: 0 <= k < |s| ==>
        (s[k].next == if k == |s| - 1 then null else if p == j then s[k + 1]
         else if k == p - 1 then s[i] else if k == j - 1 then s[p] else if k == i - 1 then s[j] else s[k + 1]))
    && (forall k {:trigger s[k].prev} :: 0 <= k < |s| ==>
        (s[k].prev == if k == 0 then null else if p == j then s[k - 1]
         else if k == i then s[p - 1] else if k == p then s[j - 1] else if k == j then s[i - 1] else s[k - 1]))
  }

  lemma RewiredBack(s: seq<Elem>, p: int, i: int, j: int)
    requires 1 <= p < i < j < |s| && Rewired(s, p, i, j)
    ensures Chain(s[..p] + s[i..j] + s[p..i] + s[j..])
  {
    var a, b, c, d := s[..p], s[i..j], s[p..i], s[j..];
    assert Chain(a) && Chain(b) && Chain(c) && Chain(d);
    ChainConcat(a, b);
    ChainConcat(c, d);
    hide Chain;
    ChainConcat(a + b, c + d);
    assert a + b + c + d == (a + b) + (c + d);
  }

  lemma RewiredOn(s: seq<Elem>, p: int, i: int, j: int)
    requires 1 <= i < j <= p < |s| && Rewired(s, p, i, j)
    ensures Chain(s[..i] + s[j..p] + s[i..j] + s[p..])
  {
    if p == j {
      assert s[..i] + s[j..p] + s[i..j] + s[p..] == s;
    } else {
      var a, b, c, d := s[..i], s[j..p], s[i..j], s[p..];
      assert Chain(a) && Chain(b) && Chain(c) && Chain(d);
      ChainConcat(a, b);
      ChainConcat(c, d);
      ChainConcat(a + b, c + d);
      assert a + b + c + d == (a + b) + (c + d);
    }
  }

  lemma TransplantedDistinct(s: seq<Elem>, p: int, i: int, j: int)
    requires Once(s) && 1 <= i < j < |s| && (1 <= p < i || j <= p < |s|)
    ensures Once(Transplanted(s, p, i, j))
  {
    if p < i {
      BlocksDistinct(s[..p], s[p..i], s[i..j], s[j..], s);
    } else {
      BlocksDistinct(s[..i], s[i..j], s[j..p], s[p..], s);
    }
  }

  /** Swapping two adjacent blocks keeps the elements distinct. */
  lemma BlocksDistinct(a: seq<Elem>, b: seq<Elem>, c: seq<Elem>, d: seq<Elem>, s: seq<Elem>)
    requires s == a + b + c + d && Once(s)
    ensures Once(a + c + b + d)
  {
    var r := a + c + b + d;
    forall x, y | 0 <= x < y < |r| ensures r[x] != r[y] {
      var x' := if x < |a| || x >= |a| + |b| + |c| then x else if x < |a| + |c| then x + |b| else x - |c|;
      var y' := if y < |a| || y >= |a| + |b| + |c| then y else if y < |a| + |c| then y + |b| else y - |c|;
      assert r[x] == s[x'] && r[y] == s[y'] && x' != y';
    }
  }

  lemma RewiredLinks(s: seq<Elem>, p: int, i: int, j: int)
    requires Once(s) && 1 <= i < j < |s| && (1 <= p < i || j <= p < |s|) && Rewired(s, p, i, j)
    ensures Linked(Transplanted(s, p, i, j))
  {
    assert s[0].prev == null && s[|s| - 1].next == null;
    if p < i { RewiredBack(s, p, i, j); } else { RewiredOn(s, p, i, j); }
    TransplantedDistinct(s, p, i, j);
    hide Chain, Once, Rewired;
    var r := Transplanted(s, p, i, j);
    assert |r| == |s| && r[0] == s[0] && r[|r| - 1] == s[|s| - 1];
  }

  /** `list_splice` within one list; an empty range changes nothing. */
  method ListSplice(before: Elem, first: Elem, last0: Elem, ghost s: seq<Elem>, ghost p: int, ghost i: int,
                    ghost j: int, ghost r: set<Elem>)
    requires Linked(s) && 1 <= i <= j < |s| && 1 <= p < |s| && (p < i || j <= p)
    requires before == s[p] && first == s[i] && last0 == s[j] && Within(s, r)
    modifies r
    ensures Linked(if i < j then Transplanted(s, p, i, j) else s)
  {
    if first == last0 { return; }
    SpliceRange(before, first, last0, s, p, i, j, r);
  }

  method SpliceRange(before: Elem, first: Elem, last0: Elem, ghost s: seq<Elem>, ghost p: int, ghost i: int,
                     ghost j: int, ghost r: set<Elem>)
    requires Linked(s) && 1 <= i < j < |s| && (1 <= p < i || j <= p < |s|)
    requires before == s[p] && first == s[i] && last0 == s[j] && Within(s, r)
    modifies r
    ensures Linked(Transplanted(s, p, i, j))
  {
    var last := last0.prev;
    first.prev.next := last.next;
    last.next.prev := first.prev;
    first.prev := before.prev;
    last.next := before;
    before.prev.next := first;
    before.prev := last;
    RewiredLinks(s, p, i, j);
  }

  /** The whole list with interior elements t. */
  ghost function Spine(h: Elem, t: seq<Elem>, tl: Elem): seq<Elem> {
    [h] + t + [tl]
  }

  /** `find_end_of_run`: from element i to at most element n, the end of the run; with
      the list's end as bound, a maximal run. */
  method FindEndOfRun(a: Elem, b: Elem, less: Less, ghost h: Elem, ghost t: seq<Elem>, ghost tl: Elem, ghost i: int,
                      ghost n: int)
    returns (e: Elem, ghost k: int)
    requires Linked(Spine(h, t, tl)) && 0 <= i < n <= |t| && a == t[i] && b == Spine(h, t, tl)[n + 1]
    ensures i < k <= n && e == Spine(h, t, tl)[k + 1]
    ensures (forall x :: i < x < k ==> !less(t[x], t[x - 1])) && (k < n ==> less(t[k], t[k - 1]))
    ensures n == |t| ==> IsRun(less, t, i, k)
  {
    ghost var s := Spine(h, t, tl);
    assert s[i + 1] == a;
    e, k := a.next, i + 1;
    while e != b && !less(e, e.prev)
      invariant i < k <= n && e == s[k + 1]
      invariant forall x :: i < x < k ==> !less(t[x], t[x - 1])
      decreases n - k
    {
      e, k := e.next, k + 1;
    }
  }

  lemma NextElem(h: Elem, t: seq<Elem>, tl: Elem, k: int)
    requires Linked(Spine(h, t, tl)) && 0 <= k <= |t|
    ensures Spine(h, t, tl)[k].next == Spine(h, t, tl)[k + 1]
  {}

  lemma PrevElem(h: Elem, t: seq<Elem>, tl: Elem, k: int)
    requires Linked(Spine(h, t, tl)) && 0 < k < |t| + 2
    ensures Spine(h, t, tl)[k].prev == Spine(h, t, tl)[k - 1]
  {}

  /** One splice of `inplace_merge`: element m goes to before element p. */
  method MoveElem(a: Elem, b: Elem, ghost h: Elem, ghost t: seq<Elem>, ghost tl: Elem, ghost p: int, ghost m: int,
                  ghost r: set<Elem>)
    requires Linked(Spine(h, t, tl)) && 0 <= p < m < |t| && a == t[p] && b == Spine(h, t, tl)[m + 2] &&
      Within(Spine(h, t, tl), r)
    modifies r
    ensures Linked(Spine(h, Move(t, p, m), tl)) && Within(Spine(h, Move(t, p, m), tl), r)
    ensures |Move(t, p, m)| == |t| && Spine(h, Move(t, p, m), tl)[p + 2] == a
    ensures forall k :: m + 2 <= k < |t| + 2 ==> Spine(h, Move(t, p, m), tl)[k] == Spine(h, t, tl)[k]
  {
    hide Chain, Once, Linked, Within, Transplanted, Move;
    ghost var s := Spine(h, t, tl);
    assert s[p + 1] == t[p] && s[m + 1] == t[m];
    NextElem(h, t, tl, m + 1);
    PrevElem(h, t, tl, m + 2);
    ListSplice(a, b.prev, b, s, p + 1, m + 1, m + 2, r);
    MoveSpine(h, t, tl, p, m, r);
  }

  lemma MoveSpine(h: Elem, t: seq<Elem>, tl: Elem, p: int, m: int, r: set<Elem>)
    requires 0 <= p < m < |t| && Within(Spine(h, t, tl), r)
    ensures Transplanted(Spine(h, t, tl), p + 1, m + 1, m + 2) == Spine(h, Move(t, p, m), tl)
    ensures Within(Spine(h, Move(t, p, m), tl), r)
    ensures |Move(t, p, m)| == |t| && Spine(h, Move(t, p, m), tl)[p + 2] == t[p]
    ensures forall k :: m + 2 <= k < |t| + 2 ==> Spine(h, Move(t, p, m), tl)[k] == Spine(h, t, tl)[k]
  {
    var a, b := Transplanted(Spine(h, t, tl), p + 1, m + 1, m + 2), Spine(h, Move(t, p, m), tl);
    assert |a| == |b| && forall k :: 0 <= k < |a| ==> a[k] == b[k];
  }

  /** `inplace_merge`: two adjacent runs become one, without moving equivalent
      elements past each other. */
  method InplaceMerge(a: Elem, b: Elem, b1: Elem, less: Less, ghost h: Elem, ghost t0: seq<Elem>, ghost tl: Elem,
                      ghost i: int, ghost m0: int, ghost e: int, ghost rank: map<Elem, int>, ghost r: set<Elem>)
    returns (ghost t: seq<Elem>)
    requires Linked(Spine(h, t0, tl)) && Within(Spine(h, t0, tl), r)
    requires 0 <= i < m0 < e <= |t0| && a == t0[i] && b == t0[m0] && b1 == Spine(h, t0, tl)[e + 1]
    requires MergeState(less, rank, t0, t0, i, i, m0, e)
    modifies r
    ensures Linked(Spine(h, t, tl)) && Within(Spine(h, t, tl), r)
    ensures MergeState(less, rank, t0, t, i, e, e, e)
  {
    hide Chain, Once, MergeState, Linked, Within, Move, Spine;
    t := t0;
    SpineAt(h, t, tl);
    var a0, a1b0 := a, b;
    ghost var p, m := i, m0;
    while a0 != a1b0 && a1b0 != b1
      invariant Linked(Spine(h, t, tl)) && Within(Spine(h, t, tl), r)
      invariant MergeState(less, rank, t0, t, i, p, m, e) && 0 <= i <= p <= m <= e <= |t| == |Spine(h, t, tl)| - 2
      invariant a0 == Spine(h, t, tl)[p + 1] && a1b0 == Spine(h, t, tl)[m + 1] && b1 == Spine(h, t, tl)[e + 1]
      decreases e - p
    {
      SpineAt(h, t, tl);
      NextElem(h, t, tl, p + 1);
      NextElem(h, t, tl, m + 1);
      if !less(a1b0, a0) {
        a0 := a0.next;
        MergeStateAdvance(less, rank, t0, t, i, p, m, e);
        p := p + 1;
      } else {
        a1b0 := a1b0.next;
        MoveElem(a0, a1b0, h, t, tl, p, m, r);
        MergeStateMove(less, rank, t0, t, i, p, m, e);
        t, p, m := Move(t, p, m), p + 1, m + 1;
        SpineAt(h, t, tl);
      }
    }
    SamePlace(h, t, tl, p + 1, m + 1);
    SamePlace(h, t, tl, m + 1, e + 1);
    MergeStateEnd(less, rank, t0, t, i, p, m, e);
  }

  lemma SpineAt(h: Elem, t: seq<Elem>, tl: Elem)
    ensures |Spine(h, t, tl)| == |t| + 2 && forall k :: 0 <= k < |t| ==> Spine(h, t, tl)[k + 1] == t[k]
  {}

  lemma SamePlace(h: Elem, t: seq<Elem>, tl: Elem, x: int, y: int)
    requires Linked(Spine(h, t, tl)) && 0 <= x < |t| + 2 && 0 <= y < |t| + 2
    ensures Spine(h, t, tl)[x] == Spine(h, t, tl)[y] ==> x == y
  {}

  /** One pass of `list_sort` over the list: adjacent runs are merged pairwise. */
  method MergePass(head: Elem, tail: Elem, less: Less, ghost s0: seq<Elem>, ghost rank: map<Elem, int>,
                   ghost r: set<Elem>)
    returns (cnt: int, ghost t: seq<Elem>)
    requires Linked(Spine(head, s0, tail)) && Within(Spine(head, s0, tail), r)
    requires StrictWeak(less, s0) && Stable(less, rank, s0)
    modifies r
    ensures Linked(Spine(head, t, tail)) && Within(Spine(head, t, tail), r)
    ensures PassDone(less, rank, s0, t, cnt)
  {
    hide Chain, Once, Linked, Within, StrictWeak, Stable, PassDone, PassState, MergeState, RunCount, IsRun;
    PassStart(less, rank, s0);
    NextElem(head, s0, tail, 0);
    var a0 := head.next;
    ghost var q := 0;
    cnt, t := 0, s0;
    while a0 != tail
      invariant Linked(Spine(head, t, tail)) && Within(Spine(head, t, tail), r)
      invariant PassState(less, rank, s0, t, q, cnt) && 0 <= q <= |t| && a0 == Spine(head, t, tail)[q + 1]
      decreases |s0| - q
    {
      PassFacts(less, rank, s0, t, q, cnt);
      SamePlace(head, t, tail, q + 1, |t| + 1);
      ghost var k, e;
      var a1b0, b1;
      a1b0, k := FindEndOfRun(a0, tail, less, head, t, tail, q, |t|);
      SamePlace(head, t, tail, k + 1, |t| + 1);
      if a1b0 == tail {
        PassLast(less, rank, s0, t, q, cnt);
        cnt := cnt + 1;
        return;
      }
      b1, e := FindEndOfRun(a1b0, tail, less, head, t, tail, k, |t|);
      RunsReady(less, rank, t, q, k, e);
      ghost var t1 := t;
      t := InplaceMerge(a0, a1b0, b1, less, head, t, tail, q, k, e, rank, r);
      PassStep(less, rank, s0, t1, t, q, k, e, cnt);
      SameEnd(head, t1, t, tail, e, less, rank, q);
      cnt, a0, q := cnt + 1, b1, e;
    }
    SamePlace(head, t, tail, q + 1, |t| + 1);
    PassEnd(less, rank, s0, t, cnt);
  }

  lemma PassFacts(less: Less, rank: map<Elem, int>, s0: seq<Elem>, t: seq<Elem>, q: int, cnt: int)
    requires PassState(less, rank, s0, t, q, cnt)
    ensures StrictWeak(less, t) && Stable(less, rank, t) && |t| == |s0| && 0 <= q <= |t|
  {}

  lemma RunsReady(less: Less, rank: map<Elem, int>, t: seq<Elem>, q: int, k: int, e: int)
    requires StrictWeak(less, t) && Stable(less, rank, t) && IsRun(less, t, q, k) && IsRun(less, t, k, e)
    ensures MergeState(less, rank, t, t, q, q, k, e)
  {
    AdjacentSorted(less, t, q, k);
    AdjacentSorted(less, t, k, e);
    hide StrictWeak, Stable;
    MergeStart(less, t, q, k, e);
  }

  lemma SameEnd(h: Elem, t: seq<Elem>, t': seq<Elem>, tl: Elem, e: int, less: Less, rank: map<Elem, int>, q: int)
    requires MergeState(less, rank, t, t', q, e, e, e)
    ensures 0 <= e <= |t| == |t'| && Spine(h, t', tl)[e + 1] == Spine(h, t, tl)[e + 1]
  {
    if e < |t| { assert t[e..][0] == t'[e..][0]; }
  }

  /** In t, equivalent elements come in the order in which they come in s0. */
  ghost predicate KeepsOrder(less: Less, s0: seq<Elem>, t: seq<Elem>) {
    forall x, y, i, j ::
      (0 <= x < y < |t| && 0 <= i < |s0| && 0 <= j < |s0| && t[x] == s0[i] && t[y] == s0[j] &&
       !less(t[x], t[y]) && !less(t[y], t[x])) ==> i < j
  }

  ghost function RankOf(s: seq<Elem>): map<Elem, int> {
    map x | x in s :: var k :| 0 <= k < |s| && s[k] == x; k
  }

  lemma RankStable(less: Less, s: seq<Elem>)
    requires Once(s)
    ensures Stable(less, RankOf(s), s) && forall k :: 0 <= k < |s| ==> RankOf(s)[s[k]] == k
  {}

  lemma StableKeepsOrder(less: Less, s0: seq<Elem>, t: seq<Elem>)
    requires Once(s0) && Stable(less, RankOf(s0), t)
    ensures KeepsOrder(less, s0, t)
  {
    RankStable(less, s0);
  }

  lemma InteriorDistinct(h: Elem, t: seq<Elem>, tl: Elem)
    requires Linked(Spine(h, t, tl))
    ensures Once(t)
  {
    var s := Spine(h, t, tl);
    assert forall k :: 0 <= k < |t| ==> s[k + 1] == t[k];
  }

  /** `list_sort`: for every strict weak order the list ends up well formed, sorted, a
      permutation of what it was, and stable. The number of runs at least halves
      with every pass, so the loop ends. */
  method ListSort(head: Elem, tail: Elem, less: Less, ghost s0: seq<Elem>) returns (ghost t: seq<Elem>)
    requires Linked(Spine(head, s0, tail)) && StrictWeak(less, s0)
    modifies Spine(head, s0, tail)
    ensures Linked(Spine(head, t, tail)) && multiset(t) == multiset(s0)
    ensures SortedRange(less, t, 0, |t|) && KeepsOrder(less, s0, t)
  {
    hide Chain, StrictWeak, Stable, Linked, Once, KeepsOrder, SortedRange, RunCount;
    ghost var rank, r := RankOf(s0), set x | x in Spine(head, s0, tail);
    InteriorDistinct(head, s0, tail);
    RankStable(less, s0);
    var cnt;
    cnt, t := MergePass(head, tail, less, s0, rank, r);
    while cnt > 1
      invariant Linked(Spine(head, t, tail)) && Within(Spine(head, t, tail), r)
      invariant multiset(t) == multiset(s0) && StrictWeak(less, t) && Stable(less, rank, t) && RunCount(less, t) <= cnt
      decreases cnt
    {
      cnt, t := MergePass(head, tail, less, t, rank, r);
    }
    OneRunSorted(less, t);
    StableKeepsOrder(less, s0, t);
  }

  lemma OneRunSorted(less: Less, t: seq<Elem>)
    requires StrictWeak(less, t) && RunCount(less, t) <= 1
    ensures SortedRange(less, t, 0, |t|)
  {
    OneRun(less, t);
    AdjacentSorted(less, t, 0, |t|);
  }

  /** `list_insert_ordered`: before the first element that elem is less than. */
  method ListInsertOrdered(head: Elem, tail: Elem, elem: Elem, less: Less, ghost t: seq<Elem>) returns (ghost p: int)
    requires Linked(Spine(head, t, tail)) && elem !in Spine(head, t, tail)
    modifies Spine(head, t, tail), elem
    ensures 0 <= p <= |t| && Linked(Spine(head, t[..p] + [elem] + t[p..], tail))
    ensures t[..p] + [elem] + t[p..] == InsertOrdered(less, t, elem)
  {
    hide Chain, Once, Linked;
    ghost var s := Spine(head, t, tail);
    NextElem(head, t, tail, 0);
    var e := head.next;
    p := 0;
    while e != tail && !less(elem, e)
      invariant Linked(s) && 0 <= p <= |t| && e == s[p + 1] && forall k :: 0 <= k < p ==> !less(elem, t[k])
      decreases |t| - p
    {
      SamePlace(head, t, tail, p + 1, |t| + 1);
      NextElem(head, t, tail, p + 1);
      e, p := e.next, p + 1;
    }
    SamePlace(head, t, tail, p + 1, |t| + 1);
    ListInsert(e, elem, s, p + 1);
    InsertSpine(head, t, tail, p, elem);
    InsertPlace(less, t, elem, p);
  }

  lemma InsertSpine(h: Elem, t: seq<Elem>, tl: Elem, p: int, x: Elem)
    requires 0 <= p <= |t|
    ensures Spine(h, t, tl)[..p + 1] + [x] + Spine(h, t, tl)[p + 1..] == Spine(h, t[..p] + [x] + t[p..], tl)
  {}
}
