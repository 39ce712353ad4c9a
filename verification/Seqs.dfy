/** Sequences without repetitions, and taking one element out. */
module Seqs {
  predicate Once<T(==)>(s: seq<T>) { forall i, j :: 0 <= i < j < |s| ==> s[i] != s[j] }

  /** s without its first x, as list_remove leaves a list. */
  function Without<T(==)>(s: seq<T>, x: T): seq<T> {
    if s == [] then [] else if s[0] == x then s[1..] else [s[0]] + Without(s[1..], x)
  }

  lemma {:induction false} WithoutIs<T>(s: seq<T>, x: T)
    requires Once(s)
    ensures Once(Without(s, x)) && forall y :: y in Without(s, x) <==> y in s && y != x
  {
    if s != [] {
      assert s == [s[0]] + s[1..];
      if s[0] != x {
        WithoutIs(s[1..], x);
        assert s[0] !in s[1..];
        assert s[0] !in Without(s[1..], x);
      }
    }
  }
}
