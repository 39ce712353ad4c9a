/** Writing into byte buffers. */
module Buffers {
  /** h with bytes written from `at` on. */
  function Put(h: seq<int>, at: int, bytes: seq<int>): (r: seq<int>)
    requires 0 <= at && at + |bytes| <= |h|
    ensures |r| == |h|
    ensures forall k {:trigger r[k]} :: 0 <= k < |h| ==> r[k] == if at <= k < at + |bytes| then bytes[k - at] else h[k]
  {
    h[..at] + bytes + h[at + |bytes|..]
  }

  /** At most size - 1 characters, and a null. */
  function Terminated(s: seq<int>, size: int): (r: seq<int>)
    requires 0 < size
    ensures |r| <= size
  {
    (if |s| < size then s else s[..size - 1]) + [0]
  }
}

/** strlcpy and strtok_r of pintos/src/lib/string.c. */
module Strings {
  import opened Options
  import opened Buffers

  const BLANK := 32

  /** The delimiters " ". */
  const SPACE: set<int> := {BLANK}

  /** The content of a C string: no null inside. */
  predicate NoNull(s: seq<int>) { forall k :: 0 <= k < |s| ==> s[k] != 0 }

  /** `strlcpy` of the string src: what fits, always terminated unless size is 0. */
  method Strlcpy(dst: array<int>, at: int, src: seq<int>, size: int) returns (n: int)
    requires 0 <= at && 0 <= size && (size > 0 ==> at + |Terminated(src, size)| <= dst.Length)
    modifies dst
    ensures n == |src| && dst[..] == if size > 0 then Put(old(dst[..]), at, Terminated(src, size)) else old(dst[..])
  {
    n := |src|;
    if size > 0 {
      var dstLen := if |src| < size - 1 then |src| else size - 1;
      var i := 0;
      while i < dstLen
        invariant 0 <= i <= dstLen
        invariant forall k :: 0 <= k < dst.Length ==> dst[k] == if at <= k < at + i then src[k - at] else old(dst[k])
      {
        dst[at + i] := src[i];
        i := i + 1;
      }
      dst[at + dstLen] := 0;
      CopyIs(old(dst[..]), dst[..], at, size, src);
    }
  }

  lemma CopyIs(was: seq<int>, now: seq<int>, at: int, size: int, src: seq<int>)
    requires 0 <= at && 0 < size && at + |Terminated(src, size)| <= |was| == |now|
    requires var n := if |src| < size - 1 then |src| else size - 1;
             forall k :: 0 <= k < |was| ==> now[k] == if at <= k < at + n then src[k - at] else if k == at + n then 0
               else was[k]
    ensures now == Put(was, at, Terminated(src, size))
  {
    var t := Terminated(src, size);
    var r := Put(was, at, t);
    forall k | 0 <= k < |was| ensures now[k] == r[k] {}
  }

  // ----- words -----

  /** The length of the leading part of s without delimiters. */
  function WordLen(s: seq<int>, d: set<int>): (n: nat)
    ensures n <= |s| && (forall k :: 0 <= k < n ==> s[k] !in d) && (n < |s| ==> s[n] in d)
  {
    if s == [] || s[0] in d then 0 else 1 + WordLen(s[1..], d)
  }

  /** The non-empty words of s, which one or more delimiters separate. */
  function Words(s: seq<int>, d: set<int>): seq<seq<int>>
    decreases |s|
  {
    if s == [] then []
    else if s[0] in d then Words(s[1..], d)
    else [s[..WordLen(s, d)]] + Words(s[WordLen(s, d)..], d)
  }

  lemma {:induction false} SkipBlanks(s: seq<int>, d: set<int>, n: nat)
    requires n <= |s| && forall k :: 0 <= k < n ==> s[k] in d
    ensures Words(s, d) == Words(s[n..], d)
  {
    if n > 0 {
      SkipBlanks(s[1..], d, n - 1);
      assert s[1..][n - 1..] == s[n..];
    } else {
      assert s[0..] == s;
    }
  }

  lemma WordLenIs(s: seq<int>, d: set<int>, n: nat)
    requires n <= |s| && (forall k :: 0 <= k < n ==> s[k] !in d) && (n < |s| ==> s[n] in d)
    ensures WordLen(s, d) == n
  {}

  lemma WordThenRest(s: seq<int>, d: set<int>, n: nat)
    requires 0 < n <= |s| && (forall k :: 0 <= k < n ==> s[k] !in d) && (n < |s| ==> s[n] in d)
    ensures Words(s, d) == [s[..n]] + Words(s[n..], d)
  {
    hide WordLen;
    WordLenIs(s, d, n);
  }

  lemma WordAt(s: seq<int>, d: set<int>, t: int, e: int)
    requires 0 <= t < e <= |s| && (forall k :: t <= k < e ==> s[k] !in d) && (e < |s| ==> s[e] in d)
    ensures Words(s[t..], d) == [s[t..e]] + Words(s[e..], d)
  {
    hide Words;
    WordThenRest(s[t..], d, e - t);
    assert s[t..][..e - t] == s[t..e] && s[t..][e - t..] == s[e..];
  }

  /** A word at s[t..e] after delimiters comes first, and the rest follows. */
  lemma FirstWord(s: seq<int>, d: set<int>, t: int, e: int)
    requires 0 <= t < e <= |s| && (forall k :: 0 <= k < t ==> s[k] in d) && (forall k :: t <= k < e ==> s[k] !in d) &&
      (e < |s| ==> s[e] in d)
    ensures Words(s, d) == [s[t..e]] + Words(s[if e < |s| then e + 1 else e..], d)
  {
    hide Words;
    WordAt(s, d, t, e);
    SkipBlanks(s, d, t);
    if e < |s| { OneBlank(s, d, e); }
  }

  lemma OneBlank(s: seq<int>, d: set<int>, e: int)
    requires 0 <= e < |s| && s[e] in d
    ensures Words(s[e..], d) == Words(s[e + 1..], d)
  {
    assert s[e..][1..] == s[e + 1..];
  }

  lemma NoWords(s: seq<int>, d: set<int>)
    requires forall k :: 0 <= k < |s| ==> s[k] in d
    ensures Words(s, d) == []
  {
    hide Words;
    SkipBlanks(s, d, |s|);
    assert s[|s|..] == [];
    EmptyWords(d);
  }

  lemma EmptyWords(d: set<int>)
    ensures Words([], d) == []
  {}

  /**
   * `strtok_r` with the characters d as delimiters, on the string from s to the
   * null at `end`: the next word's place, or none; the delimiter after it
   * becomes a null.
   */
  method StrtokR(buf: array<int>, s: int, d: set<int>, ghost end: int) returns (token: Option<int>, save: int)
    requires 0 <= s <= end < buf.Length && NoNull(buf[s..end]) && buf[end] == 0 && 0 !in d
    modifies buf
    ensures s <= save <= end && forall k :: 0 <= k < buf.Length && !(s <= k < save) ==> buf[k] == old(buf[k])
    ensures token.None? ==> Words(old(buf[s..end]), d) == [] && save == end
    ensures token.Some? ==> s <= token.value < end && s < save
    ensures token.Some? ==>
      Words(old(buf[s..end]), d) == [CStringAt(buf[..], token.value)] + Words(old(buf[..])[save..end], d)
  {
    hide Words, CStringAt;
    var p := s;
    while buf[p] in d || buf[p] == 0
      invariant s <= p <= end && forall k :: s <= k < p ==> buf[k] in d
      decreases end - p
    {
      if buf[p] == 0 {
        NoWords(buf[s..end], d);
        return None, p;
      }
      p := p + 1;
    }
    var t := p;
    while buf[p] !in d && buf[p] != 0
      invariant t <= p <= end && forall k :: t <= k < p ==> buf[k] !in d && buf[k] != 0
      decreases end - p
    {
      p := p + 1;
    }
    assert p < end ==> buf[p] == buf[s..end][p - s];
    ghost var line := buf[s..end];
    assert forall k {:trigger line[k]} :: 0 <= k < |line| ==> line[k] == buf[s + k];
    FirstWord(line, d, t - s, p - s);
    token := Some(t);
    if buf[p] != 0 {
      buf[p] := 0;
      save := p + 1;
    } else {
      save := p;
    }
    CStringIs(buf[..], t, p);
    assert buf[t..p] == line[t - s..p - s] && line[save - s..] == old(buf[..])[save..end];
  }

  /** The bytes from a up to the first null. */
  function CStringAt(m: seq<int>, a: int): seq<int>
    requires 0 <= a <= |m|
    decreases |m| - a
  {
    if a == |m| || m[a] == 0 then [] else [m[a]] + CStringAt(m, a + 1)
  }

  lemma {:induction false} CStringIs(m: seq<int>, a: int, e: int)
    requires 0 <= a <= e < |m| && m[e] == 0 && NoNull(m[a..e])
    ensures CStringAt(m, a) == m[a..e]
    decreases e - a
  {
    if a < e {
      assert m[a] == m[a..e][0];
      assert m[a..e][1..] == m[a + 1..e];
      CStringIs(m, a + 1, e);
    }
  }
}
