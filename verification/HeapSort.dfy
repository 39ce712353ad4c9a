/** Heap sort and binary search on arrays (lib/stdlib.c). Elements are numbered from
    one in the heap, as in the source; the comparison returns a strcmp()-type
    result. */
module HeapSort {
  import opened Options

  /** The comparison is a total preorder. */
  ghost predicate TotalPreorder<T(!new)>(cmp: (T, T) -> int) {
    && (forall a: T, b: T :: cmp(a, b) > 0 <==> cmp(b, a) < 0)
    && (forall a: T, b: T, c: T :: cmp(a, b) <= 0 && cmp(b, c) <= 0 ==> cmp(a, c) <= 0)
  }

  ghost predicate Sorted<T>(cmp: (T, T) -> int, s: seq<T>, lo: int)
    requires 0 <= lo <= |s|
  {
    forall x, y :: lo <= x < y < |s| ==> cmp(s[x], s[y]) <= 0
  }

  /** Element p of the heap is not below element c. */
  predicate Above<T>(cmp: (T, T) -> int, s: seq<T>, p: int, c: int)
    requires 1 <= p <= |s| && 1 <= c <= |s|
  {
    cmp(s[c - 1], s[p - 1]) <= 0
  }

  /** Every element from number lo on is above its children among the first cnt. */
  ghost predicate HeapFrom<T>(cmp: (T, T) -> int, s: seq<T>, lo: int, cnt: int)
    requires 1 <= lo && cnt <= |s|
  {
    forall c :: 2 * lo <= c <= cnt ==> Above(cmp, s, c / 2, c)
  }

  /** As HeapFrom, except that element k may be below its children; whatever is above
      k is above those children too. */
  ghost predicate Sifting<T>(cmp: (T, T) -> int, s: seq<T>, lo: int, k: int, cnt: int) {
    && 1 <= lo <= k <= cnt <= |s| && (k > lo ==> k / 2 >= lo)
    && (forall c :: 2 * lo <= c <= cnt && c / 2 != k ==> Above(cmp, s, c / 2, c))
    && (k > lo ==> forall c :: 2 * k <= c <= 2 * k + 1 && c <= cnt ==> Above(cmp, s, k / 2, c))
  }

  function Swap<T>(s: seq<T>, i: int, j: int): (r: seq<T>)
    requires 0 <= i < |s| && 0 <= j < |s|
    ensures |r| == |s|
  {
    s[i := s[j]][j := s[i]]
  }

  lemma SwapPermutes<T>(s: seq<T>, i: int, j: int)
    requires 0 <= i < |s| && 0 <= j < |s|
    ensures multiset(Swap(s, i, j)) == multiset(s)
  {}

  lemma SiftDown<T(!new)>(cmp: (T, T) -> int, s: seq<T>, lo: int, k: int, m: int, cnt: int)
    requires TotalPreorder(cmp) && Sifting(cmp, s, lo, k, cnt)
    requires 2 * k <= m <= 2 * k + 1 && m <= cnt && Above(cmp, s, m, k)
    requires forall c :: 2 * k <= c <= 2 * k + 1 && c <= cnt ==> Above(cmp, s, m, c)
    ensures Sifting(cmp, Swap(s, k - 1, m - 1), lo, m, cnt)
  {
    var r := Swap(s, k - 1, m - 1);
    forall c | 2 * lo <= c <= cnt && c / 2 != m ensures Above(cmp, r, c / 2, c) {
      if c / 2 == k { assert Above(cmp, s, m, c); }
      else if c == k { assert Above(cmp, s, k / 2, m); }
      else { assert Above(cmp, s, c / 2, c); }
    }
    forall c | 2 * m <= c <= 2 * m + 1 && c <= cnt ensures Above(cmp, r, m / 2, c) {
      assert Above(cmp, s, c / 2, c);
    }
  }

  lemma SiftDone<T>(cmp: (T, T) -> int, s: seq<T>, lo: int, k: int, cnt: int)
    requires Sifting(cmp, s, lo, k, cnt)
    requires forall c :: 2 * k <= c <= 2 * k + 1 && c <= cnt ==> Above(cmp, s, k, c)
    ensures HeapFrom(cmp, s, lo, cnt)
  {}

  /** The first element of a heap is the largest. */
  lemma {:induction false} RootLargest<T(!new)>(cmp: (T, T) -> int, s: seq<T>, cnt: int, c: int)
    requires TotalPreorder(cmp) && 1 <= c <= cnt <= |s| && HeapFrom(cmp, s, 1, cnt)
    ensures Above(cmp, s, 1, c)
  {
    if c > 1 {
      assert Above(cmp, s, c / 2, c);
      RootLargest(cmp, s, cnt, c / 2);
    }
  }

  /** The largest of element i and its children among the first cnt. */
  method LargestChild<T(!new)>(a: array<T>, i: int, cnt: int, cmp: (T, T) -> int, ghost s: seq<T>) returns (max: int)
    requires TotalPreorder(cmp) && 1 <= i <= cnt <= a.Length && s == a[..]
    ensures max == i || (2 * i <= max <= 2 * i + 1 && max <= cnt && Above(cmp, s, max, i))
    ensures forall c :: 2 * i <= c <= 2 * i + 1 && c <= cnt ==> Above(cmp, s, max, c)
  {
    var left, right := 2 * i, 2 * i + 1;
    max := i;
    if left <= cnt && cmp(a[left - 1], a[max - 1]) > 0 { max := left; }
    if right <= cnt && cmp(a[right - 1], a[max - 1]) > 0 { max := right; }
  }

  /** `heapify`: floats element i0 down until the heap is in order from i0 on; only
      the first cnt elements move. */
  method Heapify<T(!new)>(a: array<T>, i0: int, cnt: int, cmp: (T, T) -> int)
    requires TotalPreorder(cmp) && 1 <= i0 <= cnt <= a.Length && HeapFrom(cmp, a[..], i0 + 1, cnt)
    modifies a
    ensures HeapFrom(cmp, a[..], i0, cnt)
    ensures multiset(a[..]) == multiset(old(a[..])) && a[cnt..] == old(a[cnt..])
  {
    var i := i0;
    ghost var s := a[..];
    hide TotalPreorder, HeapFrom, Above;
    SiftStart(cmp, s, i0, cnt);
    while true
      invariant i0 <= i <= cnt && s == a[..] && Sifting(cmp, s, i0, i, cnt)
      invariant multiset(s) == multiset(old(a[..])) && s[cnt..] == old(a[cnt..])
      decreases cnt - i
    {
      var max := LargestChild(a, i, cnt, cmp, s);
      if max == i {
        SiftDone(cmp, s, i0, i, cnt);
        break;
      }
      SiftDown(cmp, s, i0, i, max, cnt);
      SwapPermutes(s, i - 1, max - 1);
      s := Swap(s, i - 1, max - 1);
      a[i - 1], a[max - 1] := a[max - 1], a[i - 1];
      i := max;
    }
  }

  lemma SiftStart<T>(cmp: (T, T) -> int, s: seq<T>, lo: int, cnt: int)
    requires 1 <= lo <= cnt <= |s| && HeapFrom(cmp, s, lo + 1, cnt)
    ensures Sifting(cmp, s, lo, lo, cnt)
  {}

  /** The last elements are sorted and not below the first i, which form a heap. */
  ghost predicate Selecting<T>(cmp: (T, T) -> int, s: seq<T>, i: int) {
    && 0 <= i <= |s| && HeapFrom(cmp, s, 1, i) && Sorted(cmp, s, i)
    && forall x, y :: 0 <= x < i <= y < |s| ==> cmp(s[x], s[y]) <= 0
  }

  lemma SwapHeap<T>(cmp: (T, T) -> int, s: seq<T>, i: int)
    requires 1 < i <= |s| && HeapFrom(cmp, s, 1, i)
    ensures HeapFrom(cmp, Swap(s, 0, i - 1), 2, i - 1)
  {
    var r := Swap(s, 0, i - 1);
    forall c | 4 <= c <= i - 1 ensures Above(cmp, r, c / 2, c) { assert Above(cmp, s, c / 2, c); }
  }

  /** The largest element goes to the end of the heap. */
  lemma SelectSwap<T(!new)>(cmp: (T, T) -> int, s: seq<T>, i: int)
    requires TotalPreorder(cmp) && Selecting(cmp, s, i) && i > 1
    ensures var r := Swap(s, 0, i - 1);
      HeapFrom(cmp, r, 2, i - 1) && Sorted(cmp, r, i - 1) && forall x, y :: 0 <= x < i - 1 <= y < |s| ==>
        cmp(r[x], r[y]) <= 0
  {
    hide HeapFrom, TotalPreorder;
    SwapHeap(cmp, s, i);
    forall x | 0 <= x < i ensures cmp(s[x], s[0]) <= 0 {
      RootLargest(cmp, s, i, x + 1);
      assert Above(cmp, s, 1, x + 1);
    }
  }

  lemma SameFront<T>(r: seq<T>, t: seq<T>, n: int)
    requires 0 <= n <= |r| == |t| && multiset(r) == multiset(t) && r[n..] == t[n..]
    ensures multiset(r[..n]) == multiset(t[..n])
  {
    assert r == r[..n] + r[n..] && t == t[..n] + t[n..];
    assert multiset(r[..n]) == multiset(r) - multiset(r[n..]);
    assert multiset(t[..n]) == multiset(t) - multiset(t[n..]);
  }

  lemma FromFront<T>(r: seq<T>, t: seq<T>, n: int, x: int) returns (z: int)
    requires 0 <= x < n <= |r| == |t| && multiset(r[..n]) == multiset(t[..n])
    ensures 0 <= z < n && r[z] == t[x]
  {
    assert t[..n][x] in multiset(r[..n]);
    z :| 0 <= z < n && r[..n][z] == t[x];
  }

  /** Rearranging the first n elements keeps them below the others. */
  lemma SelectHeapify<T>(cmp: (T, T) -> int, r: seq<T>, t: seq<T>, n: int)
    requires 0 <= n <= |r| == |t| && multiset(r) == multiset(t) && r[n..] == t[n..]
    requires Sorted(cmp, r, n) && HeapFrom(cmp, t, 1, n) && forall x, y :: 0 <= x < n <= y < |r| ==>
      cmp(r[x], r[y]) <= 0
    ensures Selecting(cmp, t, n)
  {
    hide HeapFrom;
    SameFront(r, t, n);
    forall y | n <= y < |t| ensures t[y] == r[y] { assert t[n..][y - n] == r[n..][y - n]; }
    forall x, y | 0 <= x < n <= y < |t| ensures cmp(t[x], t[y]) <= 0 { var z := FromFront(r, t, n, x); }
  }

  /** `sort`: for every total preorder the array ends up a sorted permutation of what
      it was. */
  method Sort<T(!new)>(a: array<T>, cmp: (T, T) -> int)
    requires TotalPreorder(cmp)
    modifies a
    ensures Sorted(cmp, a[..], 0) && multiset(a[..]) == multiset(old(a[..]))
  {
    hide TotalPreorder, HeapFrom, Sorted, Selecting;
    BuildHeap(a, cmp);
    var i := a.Length;
    NothingSelected(cmp, a[..]);
    while i > 1
      invariant 0 <= i <= a.Length && Selecting(cmp, a[..], i) && multiset(a[..]) == multiset(old(a[..]))
    {
      SelectLargest(a, i, cmp);
      i := i - 1;
    }
    AllSelected(cmp, a[..], i);
  }

  /** One round of the second loop of `sort`. */
  method SelectLargest<T(!new)>(a: array<T>, i: int, cmp: (T, T) -> int)
    requires TotalPreorder(cmp) && 1 < i <= a.Length && Selecting(cmp, a[..], i)
    modifies a
    ensures Selecting(cmp, a[..], i - 1) && multiset(a[..]) == multiset(old(a[..]))
  {
    hide TotalPreorder, HeapFrom, Sorted, Selecting;
    ghost var s := a[..];
    SelectSwap(cmp, s, i);
    SwapPermutes(s, 0, i - 1);
    a[0], a[i - 1] := a[i - 1], a[0];
    ghost var r := a[..];
    assert r == Swap(s, 0, i - 1);
    Heapify(a, 1, i - 1, cmp);
    assert a[..][i - 1..] == r[i - 1..];
    SelectHeapify(cmp, r, a[..], i - 1);
  }

  lemma NothingSelected<T>(cmp: (T, T) -> int, s: seq<T>)
    requires HeapFrom(cmp, s, 1, |s|)
    ensures Selecting(cmp, s, |s|)
  {}

  lemma AllSelected<T>(cmp: (T, T) -> int, s: seq<T>, i: int)
    requires Selecting(cmp, s, i) && i <= 1
    ensures Sorted(cmp, s, 0)
  {}

  /** The first loop of `sort`. */
  method BuildHeap<T(!new)>(a: array<T>, cmp: (T, T) -> int)
    requires TotalPreorder(cmp)
    modifies a
    ensures HeapFrom(cmp, a[..], 1, a.Length) && multiset(a[..]) == multiset(old(a[..]))
  {
    var i := a.Length / 2;
    while i > 0
      invariant 0 <= i <= a.Length / 2 && HeapFrom(cmp, a[..], i + 1, a.Length) &&
        multiset(a[..]) == multiset(old(a[..]))
    {
      Heapify(a, i, a.Length, cmp);
      i := i - 1;
    }
  }

  /** `binary_search` on an array in order: a match exactly if there is one. */
  method BinarySearch<T(!new)>(key: T, a: array<T>, cmp: (T, T) -> int) returns (r: Option<int>)
    requires TotalPreorder(cmp) && Sorted(cmp, a[..], 0)
    ensures r.Some? ==> 0 <= r.value < a.Length && cmp(key, a[r.value]) == 0
    ensures r.None? ==> forall x :: 0 <= x < a.Length ==> cmp(key, a[x]) != 0
  {
    var first, last := 0, a.Length;
    while first < last
      invariant 0 <= first <= last <= a.Length
      invariant forall x :: 0 <= x < first ==> cmp(key, a[x]) > 0
      invariant forall x :: last <= x < a.Length ==> cmp(key, a[x]) < 0
    {
      var range := last - first;
      var middle := first + range / 2;
      var c := cmp(key, a[middle]);
      if c < 0 {
        BelowAll(cmp, key, a[..], middle);
        last := middle;
      } else if c > 0 {
        AboveAll(cmp, key, a[..], middle);
        first := middle + 1;
      } else {
        return Some(middle);
      }
    }
    return None;
  }

  lemma BelowAll<T(!new)>(cmp: (T, T) -> int, key: T, s: seq<T>, m: int)
    requires TotalPreorder(cmp) && Sorted(cmp, s, 0) && 0 <= m < |s| && cmp(key, s[m]) < 0
    ensures forall x :: m <= x < |s| ==> cmp(key, s[x]) < 0
  {
    forall x | m < x < |s| ensures cmp(key, s[x]) < 0 {
      assert cmp(s[m], s[x]) <= 0 && cmp(s[m], key) > 0;
    }
  }

  lemma AboveAll<T(!new)>(cmp: (T, T) -> int, key: T, s: seq<T>, m: int)
    requires TotalPreorder(cmp) && Sorted(cmp, s, 0) && 0 <= m < |s| && cmp(key, s[m]) > 0
    ensures forall x :: 0 <= x <= m ==> cmp(key, s[x]) > 0
  {
    forall x | 0 <= x < m ensures cmp(key, s[x]) > 0 {
      assert cmp(s[x], s[m]) <= 0 && cmp(s[m], key) < 0;
    }
  }
}
