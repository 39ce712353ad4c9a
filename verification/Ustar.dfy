/**
 * Archive headers in the "ustar Interchange Format" of the pax utility in
 * SUSv3 (POSIX.1-2001), as pintos/src/lib/ustar.c writes and reads them.
 */
module Ustar {
  import opened Options
  import opened Buffers
  import opened Strings
  import opened Stdio

  const HEADER_SIZE := 512
  const REGULAR := 48
  const DIRECTORY := 53
  const CHKSUM := 148
  const CHKSUM_END := 156
  const ULONG_MAX := 0xffff_ffff
  const INT_MAX := 0x7fff_ffff
  const DOT := 46
  const SLASH := 47

  // ----- file names -----

  predicate Root(s: seq<int>) { |s| >= 1 && s[0] == SLASH }

  predicate Here(s: seq<int>) { |s| >= 2 && s[0] == DOT && s[1] == SLASH }

  predicate Up(s: seq<int>) { |s| >= 3 && s[0] == DOT && s[1] == DOT && s[2] == SLASH }

  /** The name after the loop that drops "/", "./" and "../". */
  function Dropped(s: seq<int>): seq<int>
    decreases |s|
  {
    if Root(s) then Dropped(s[1..])
    else if Here(s) then Dropped(s[2..])
    else if Up(s) then Dropped(s[3..])
    else s
  }

  function Strip(s: seq<int>): seq<int> { if Dropped(s) == [] || Dropped(s) == [DOT, DOT] then [DOT] else Dropped(s) }

  predicate Antisocial(s: seq<int>) { Root(s) || Here(s) || Up(s) }

  /** A stripped name is a non-empty relative name without a dangerous prefix. */
  lemma {:induction false} DroppedSafe(s: seq<int>)
    ensures !Antisocial(Dropped(s)) && (NoNull(s) ==> NoNull(Dropped(s)))
    decreases |s|
  {
    if Root(s) { DroppedSafe(s[1..]); }
    else if Here(s) { DroppedSafe(s[2..]); }
    else if Up(s) { DroppedSafe(s[3..]); }
  }

  lemma StripSafe(s: seq<int>)
    ensures !Antisocial(Strip(s)) && Strip(s) != [] && Strip(s) != [DOT, DOT] && (NoNull(s) ==> NoNull(Strip(s)))
  {
    hide Dropped;
    DroppedSafe(s);
  }

  lemma StripIdempotent(s: seq<int>)
    ensures Strip(Strip(s)) == Strip(s)
  {
    StripSafe(s);
    SafeKept(Strip(s));
  }

  lemma SafeKept(s: seq<int>)
    requires !Antisocial(s)
    ensures Dropped(s) == s
  {}

  /** `strip_antisocial_prefixes` */
  method StripAntisocialPrefixes(name: seq<int>) returns (r: seq<int>)
    ensures r == Strip(name)
  {
    hide Dropped;
    r := name;
    while Antisocial(r)
      invariant Dropped(r) == Dropped(name)
      decreases |r|
    {
      var k := 0;
      while r[k] != SLASH
        invariant 0 <= k < |r| && SLASH !in r[..k] && k <= 2
        invariant Root(r) ==> k == 0
        invariant Here(r) ==> k <= 1
        decreases |r| - k
      {
        k := k + 1;
      }
      DropOne(r, k);
      r := r[k + 1..];
    }
    SafeKept(r);
    if r == [] || r == [DOT, DOT] { r := [DOT]; }
  }

  /** A dangerous prefix ends at the first slash. */
  lemma DropOne(s: seq<int>, k: int)
    requires Antisocial(s) && 0 <= k < |s| && s[k] == SLASH && SLASH !in s[..k]
    ensures Dropped(s) == Dropped(s[k + 1..])
  {
    forall j | 0 <= j < k ensures s[j] != SLASH { assert s[j] in s[..k]; }
    assert k == if Root(s) then 0 else if Here(s) then 1 else 2;
  }

  // ----- checksum -----

  /** The sum of the first n bytes, the checksum field counted as blanks. */
  function Sum(h: seq<int>, n: int): int
    requires 0 <= n <= |h|
  {
    if n == 0 then 0 else Sum(h, n - 1) + if CHKSUM <= n - 1 < CHKSUM_END then BLANK_CHAR else h[n - 1]
  }

  const BLANK_CHAR := 32

  predicate IsBytes(h: seq<int>) { forall k :: 0 <= k < |h| ==> 0 <= h[k] < 256 }

  lemma {:induction false} SumBounds(h: seq<int>, n: int)
    requires 0 <= n <= |h| && IsBytes(h)
    ensures 0 <= Sum(h, n) <= 255 * n
  {
    if n > 0 { SumBounds(h, n - 1); }
  }

  /** The checksum does not depend on its own field. */
  lemma {:induction false} SumIndependent(h: seq<int>, h': seq<int>, n: int)
    requires 0 <= n <= |h| == |h'| && forall k :: 0 <= k < |h| && !(CHKSUM <= k < CHKSUM_END) ==> h[k] == h'[k]
    ensures Sum(h, n) == Sum(h', n)
  {
    if n > 0 { SumIndependent(h, h', n - 1); }
  }

  lemma {:induction false} SumChange(h: seq<int>, k: int, b: int, n: int)
    requires 0 <= n <= |h| && 0 <= k < |h| && !(CHKSUM <= k < CHKSUM_END)
    ensures Sum(h[k := b], n) == Sum(h, n) + if k < n then b - h[k] else 0
  {
    if n > 0 { SumChange(h, k, b, n - 1); }
  }

  /** `calculate_chksum` */
  method CalculateChksum(h: array<int>) returns (chksum: int)
    requires h.Length == HEADER_SIZE
    ensures chksum == Sum(h[..], HEADER_SIZE)
  {
    chksum := 0;
    var i := 0;
    while i < HEADER_SIZE
      invariant 0 <= i <= HEADER_SIZE && chksum == Sum(h[..], i)
    {
      var inField := CHKSUM <= i < CHKSUM_END;
      chksum := chksum + if inField then BLANK_CHAR else h[i];
      i := i + 1;
    }
  }

  // ----- octal fields -----

  predicate Octal(c: int) { ZERO <= c <= ZERO + 7 }

  /** The number of leading octal digits. */
  function DigitRun(s: seq<int>): (n: nat)
    ensures n <= |s| && (forall k :: 0 <= k < n ==> Octal(s[k])) && (n < |s| ==> !Octal(s[n]))
  {
    if s == [] || !Octal(s[0]) then 0 else 1 + DigitRun(s[1..])
  }

  /** A field is good if its digits end in a blank or null and their value fits. */
  function ParsedOctal(s: seq<int>): Option<int> {
    var n := DigitRun(s);
    if 0 < n < |s| && (s[n] == BLANK_CHAR || s[n] == 0) &&
      OctalValue(s[..n]) <= ULONG_MAX then Some(OctalValue(s[..n])) else None
  }

  lemma DigitRunIs(s: seq<int>, n: nat)
    requires n <= |s| && (forall k :: 0 <= k < n ==> Octal(s[k])) && (n < |s| ==> !Octal(s[n]))
    ensures DigitRun(s) == n
  {}

  lemma {:induction false} PrefixFits(s: seq<int>, n: int, m: int)
    requires 0 <= n <= m <= |s| && forall k :: 0 <= k < m ==> Octal(s[k])
    ensures 0 <= OctalValue(s[..n]) <= OctalValue(s[..m])
    decreases m
  {
    if n < m {
      PrefixFits(s, n, m - 1);
      assert s[..m][..m - 1] == s[..m - 1];
    } else if n > 0 {
      PrefixFits(s, n - 1, n - 1);
      assert s[..n][..n - 1] == s[..n - 1];
    }
  }

  lemma OverflowIs(s: seq<int>, n: nat)
    requires n < |s| && (forall k :: 0 <= k <= n ==> Octal(s[k])) && ULONG_MAX / 8 < OctalValue(s[..n])
    ensures ParsedOctal(s) == None
  {
    hide OctalValue, DigitRun;
    RunAtLeast(s, n + 1);
    PrefixFits(s, n + 1, DigitRun(s));
    NextDigit(s, n);
  }

  lemma {:induction false} RunAtLeast(s: seq<int>, n: nat)
    requires n <= |s| && forall k :: 0 <= k < n ==> Octal(s[k])
    ensures n <= DigitRun(s)
  {
    if n > 0 { RunAtLeast(s[1..], n - 1); }
  }

  lemma NextDigit(s: seq<int>, n: nat)
    requires n < |s|
    ensures OctalValue(s[..n + 1]) == 8 * OctalValue(s[..n]) + s[n] - ZERO && OctalValue(s[..0]) == 0
  {
    assert s[..n + 1][..n] == s[..n];
  }

  /** `parse_octal_field` */
  method ParseOctalField(h: array<int>, at: int, size: int) returns (value: Option<int>)
    requires 0 <= at && 0 <= size && at + size <= h.Length
    ensures value == ParsedOctal(h[at..at + size])
  {
    hide OctalValue, DigitRun;
    var v, ofs := 0, 0;
    ghost var s := h[at..at + size];
    if size > 0 { NextDigit(s, 0); }
    while ofs < size
      invariant 0 <= ofs <= size && (size > 0 ==> v == OctalValue(s[..ofs])) && 0 <= v <= ULONG_MAX &&
        forall k :: 0 <= k < ofs ==> Octal(s[k])
    {
      var c := h[at + ofs];
      assert c == s[ofs];
      if Octal(c) {
        if v > ULONG_MAX / 8 {
          OverflowIs(s, ofs);
          return None;
        }
        NextDigit(s, ofs);
        v := c - ZERO + v * 8;
      } else {
        DigitRunIs(s, ofs);
        return if (c == BLANK_CHAR || c == 0) && ofs > 0 then Some(v) else None;
      }
      ofs := ofs + 1;
    }
    DigitRunIs(s, size);
    return None;
  }

  // ----- writing a header -----

  /** "%0wo" of v, which fills exactly w places. */
  function OctalText(v: int, w: nat): (s: seq<int>)
    requires 0 < w && 0 <= v < Pow8(w)
    ensures |s| == w && IsOctal(s) && OctalValue(s) == v
  {
    OctalRendered(v, w);
    Rendered(v, false, false, BASE_O, OctalField(w))
  }

  lemma Pow8Values()
    ensures Pow8(7) == 0x20_0000 && Pow8(11) == 0x2_0000_0000
  {
    assert Pow8(3) == 512;
    assert Pow8(7) == 0x20_0000;
  }

  const USTAR_NUL := [117, 115, 116, 97, 114, 0]
  const ROOT_NUL := [114, 111, 111, 116, 0]
  const SEVEN_ZEROS := [48, 48, 48, 48, 48, 48, 48]
  const MTIME := 1136102400

  /** An int passed for %o is converted to unsigned. */
  function Unsigned(size: int): int { if size < 0 then size + 0x1_0000_0000 else size }

  predicate IsInt(size: int) { -0x8000_0000 <= size <= INT_MAX }

  function Blank(): (h: seq<int>)
    ensures |h| == HEADER_SIZE && forall k :: 0 <= k < |h| ==> h[k] == 0
  {
    seq(HEADER_SIZE, _ => 0)
  }

  predicate HeaderArgs(name: seq<int>, typ: int, size: int) {
    |name| <= 99 && NoNull(name) && IsBytes(name) && (typ == REGULAR || typ == DIRECTORY) && IsInt(size)
  }

  /** name, mode, uid and gid */
  function Owner(name: seq<int>, typ: int): (h: seq<int>)
    requires |name| <= 99
    ensures |h| == HEADER_SIZE
  {
    Pow8Values();
    var h1 := Put(Blank(), 0, name + [0]);
    var h2 := Put(h1, 100, OctalText(if typ == REGULAR then 0x1a4 else 0x1ed, 7) + [0]);
    var h3 := Put(h2, 108, SEVEN_ZEROS + [0]);
    Put(h3, 116, SEVEN_ZEROS + [0])
  }

  /** size and mtime */
  function Sized(h: seq<int>, size: int): (r: seq<int>)
    requires |h| == HEADER_SIZE && IsInt(size)
    ensures |r| == HEADER_SIZE
  {
    Pow8Values();
    Put(Put(h, 124, OctalText(Unsigned(size), 11) + [0]), 136, OctalText(MTIME, 11) + [0])
  }

  /** typeflag, magic and version */
  function Typed(h: seq<int>, typ: int): (r: seq<int>)
    requires |h| == HEADER_SIZE
    ensures |r| == HEADER_SIZE
  {
    Put(Put(Put(h, 156, [typ]), 257, USTAR_NUL), 263, [48, 48])
  }

  /** gname and uname */
  function Rooted(h: seq<int>): (r: seq<int>)
    requires |h| == HEADER_SIZE
    ensures |r| == HEADER_SIZE
  {
    Put(Put(h, 297, ROOT_NUL), 265, ROOT_NUL)
  }

  /** The header before its checksum. */
  function Unsummed(name: seq<int>, typ: int, size: int): (h: seq<int>)
    requires HeaderArgs(name, typ, size)
    ensures |h| == HEADER_SIZE
  {
    Rooted(Typed(Sized(Owner(name, typ), size), typ))
  }

  lemma PutBytes(h: seq<int>, at: int, b: seq<int>)
    requires 0 <= at && at + |b| <= |h| && IsBytes(h) && IsBytes(b)
    ensures IsBytes(Put(h, at, b))
  {
    var r := Put(h, at, b);
    forall k | 0 <= k < |r| ensures 0 <= r[k] < 256 {}
  }

  lemma OctalBytes(s: seq<int>)
    requires IsOctal(s)
    ensures IsBytes(s + [0])
  {}

  lemma OwnerBytes(name: seq<int>, typ: int)
    requires |name| <= 99 && IsBytes(name)
    ensures IsBytes(Owner(name, typ))
  {
    hide Put, OctalText, IsBytes;
    Pow8Values();
    var mode := OctalText(if typ == REGULAR then 0x1a4 else 0x1ed, 7);
    SmallBytes();
    NameBytes(name);
    OctalBytes(mode);
    PutBytes(Blank(), 0, name + [0]);
    var h1 := Put(Blank(), 0, name + [0]);
    PutBytes(h1, 100, mode + [0]);
    var h2 := Put(h1, 100, mode + [0]);
    PutBytes(h2, 108, SEVEN_ZEROS + [0]);
    PutBytes(Put(h2, 108, SEVEN_ZEROS + [0]), 116, SEVEN_ZEROS + [0]);
  }

  lemma SmallBytes()
    ensures IsBytes(Blank()) && IsBytes(SEVEN_ZEROS + [0]) && IsBytes(USTAR_NUL) && IsBytes(ROOT_NUL) &&
      IsBytes([48, 48])
  {}

  lemma NameBytes(name: seq<int>)
    requires IsBytes(name)
    ensures IsBytes(name + [0])
  {}

  lemma RestBytes(h: seq<int>, typ: int, size: int)
    requires |h| == HEADER_SIZE && IsBytes(h) && IsInt(size) && (typ == REGULAR || typ == DIRECTORY)
    ensures IsBytes(Rooted(Typed(Sized(h, size), typ)))
  {
    hide Put, OctalText, IsBytes;
    Pow8Values();
    SmallBytes();
    var a, b := OctalText(Unsigned(size), 11), OctalText(MTIME, 11);
    OctalBytes(a);
    OctalBytes(b);
    PutBytes(h, 124, a + [0]);
    var h1 := Put(h, 124, a + [0]);
    PutBytes(h1, 136, b + [0]);
    var h2 := Sized(h, size);
    TypeBytes(typ);
    PutBytes(h2, 156, [typ]);
    var h3 := Put(h2, 156, [typ]);
    PutBytes(h3, 257, USTAR_NUL);
    PutBytes(Put(h3, 257, USTAR_NUL), 263, [48, 48]);
    var h4 := Typed(h2, typ);
    PutBytes(h4, 297, ROOT_NUL);
    PutBytes(Put(h4, 297, ROOT_NUL), 265, ROOT_NUL);
  }

  lemma TypeBytes(typ: int)
    requires typ == REGULAR || typ == DIRECTORY
    ensures IsBytes([typ])
  {}

  /** Seven octal digits hold every checksum. */
  lemma SumFits(name: seq<int>, typ: int, size: int)
    requires HeaderArgs(name, typ, size)
    ensures 0 <= Sum(Unsummed(name, typ, size), HEADER_SIZE) < Pow8(7)
  {
    hide Put, OctalText, IsBytes, Sum, Pow8, Owner, Sized, Typed, Rooted;
    OwnerBytes(name, typ);
    RestBytes(Owner(name, typ), typ, size);
    SumBounds(Unsummed(name, typ, size), HEADER_SIZE);
    Pow8Values();
  }

  function ChksumText(name: seq<int>, typ: int, size: int): (s: seq<int>)
    requires HeaderArgs(name, typ, size)
    ensures |s| == 7 && IsOctal(s) && OctalValue(s) == Sum(Unsummed(name, typ, size), HEADER_SIZE)
  {
    SumFits(name, typ, size);
    OctalText(Sum(Unsummed(name, typ, size), HEADER_SIZE), 7)
  }

  /** The whole header. */
  function Header(name: seq<int>, typ: int, size: int): (h: seq<int>)
    requires HeaderArgs(name, typ, size)
    ensures |h| == HEADER_SIZE
  {
    Put(Unsummed(name, typ, size), CHKSUM, ChksumText(name, typ, size) + [0])
  }

  /** An octal field: snprintf with "%0wo" into w + 1 bytes. */
  method PutOctal(h: array<int>, at: int, w: nat, v: int)
    requires 0 < w && 0 <= v < Pow8(w) && v <= UINTMAX_MAX && 0 <= at && at + w + 1 <= h.Length
    modifies h
    ensures h[..] == Put(old(h[..]), at, OctalText(v, w) + [0])
  {
    hide Rendered, Put, Pow8;
    OctalRendered(v, w);
    var n := Snprintf(h, at, w + 1, v, false, false, BASE_O, OctalField(w));
  }

  /** A short string into a field: strlcpy. */
  method PutString(h: array<int>, at: int, text: seq<int>, size: int)
    requires |text| < size && 0 <= at && at + |text| + 1 <= h.Length
    modifies h
    ensures h[..] == Put(old(h[..]), at, text + [0])
  {
    hide Put;
    var n := Strlcpy(h, at, text, size);
  }

  method PutByte(h: array<int>, at: int, b: int)
    requires 0 <= at < h.Length
    modifies h
    ensures h[..] == Put(old(h[..]), at, [b])
  {
    h[at] := b;
  }

  method PutOwner(h: array<int>, name: seq<int>, typ: int)
    requires h.Length == HEADER_SIZE && |name| <= 99
    modifies h
    ensures h[..] == Owner(name, typ)
  {
    hide Put, OctalText, Pow8;
    Pow8Values();
    var i := 0;
    while i < HEADER_SIZE
      invariant 0 <= i <= HEADER_SIZE && forall k :: 0 <= k < i ==> h[k] == 0
    {
      h[i] := 0;
      i := i + 1;
    }
    assert h[..] == Blank();
    PutString(h, 0, name, 100);
    PutOctal(h, 100, 7, if typ == REGULAR then 0x1a4 else 0x1ed);
    PutString(h, 108, SEVEN_ZEROS, 8);
    PutString(h, 116, SEVEN_ZEROS, 8);
  }

  method PutRest(h: array<int>, typ: int, size: int)
    requires h.Length == HEADER_SIZE && IsInt(size)
    modifies h
    ensures h[..] == Rooted(Typed(Sized(old(h[..]), size), typ))
  {
    hide Put, OctalText, Pow8;
    Pow8Values();
    PutOctal(h, 124, 11, Unsigned(size));
    PutOctal(h, 136, 11, MTIME);
    PutByte(h, 156, typ);
    PutString(h, 257, USTAR_NUL[..5], 6);
    assert USTAR_NUL[..5] + [0] == USTAR_NUL;
    ghost var m := h[..];
    PutByte(h, 263, 48);
    PutByte(h, 264, 48);
    TwoBytes(m, 263, 48, 48);
    PutString(h, 297, ROOT_NUL[..4], 32);
    PutString(h, 265, ROOT_NUL[..4], 32);
    assert ROOT_NUL[..4] + [0] == ROOT_NUL;
  }

  lemma TwoBytes(h: seq<int>, at: int, a: int, b: int)
    requires 0 <= at && at + 2 <= |h|
    ensures Put(Put(h, at, [a]), at + 1, [b]) == Put(h, at, [a, b])
  {
    var r, s := Put(Put(h, at, [a]), at + 1, [b]), Put(h, at, [a, b]);
    forall k | 0 <= k < |h| ensures r[k] == s[k] {}
  }

  /** `ustar_make_header`: fails exactly for stripped names over 99 bytes. */
  method MakeHeader(fileName: seq<int>, typ: int, size: int, h: array<int>) returns (ok: bool)
    requires h.Length == HEADER_SIZE && NoNull(fileName) && IsBytes(fileName) &&
      (typ == REGULAR || typ == DIRECTORY) && IsInt(size)
    modifies h
    ensures ok <==> |Strip(fileName)| <= 99
    ensures ok ==> HeaderArgs(Strip(fileName), typ, size) && h[..] == Header(Strip(fileName), typ, size)
    ensures !ok ==> h[..] == old(h[..])
  {
    hide Put, OctalText, Pow8, Strip, IsBytes, Sum, NoNull, Owner, Rooted;
    var name := StripAntisocialPrefixes(fileName);
    StripArgs(fileName);
    if |name| > 99 { return false; }
    PutOwner(h, name, typ);
    PutRest(h, typ, size);
    SumFits(name, typ, size);
    Pow8Values();
    var chksum := CalculateChksum(h);
    PutOctal(h, CHKSUM, 7, chksum);
    ok := true;
  }

  lemma StripArgs(s: seq<int>)
    requires NoNull(s) && IsBytes(s)
    ensures NoNull(Strip(s)) && IsBytes(Strip(s))
  {
    hide Dropped;
    StripSafe(s);
    DroppedBytes(s);
  }

  lemma {:induction false} DroppedBytes(s: seq<int>)
    requires IsBytes(s)
    ensures IsBytes(Dropped(s))
    decreases |s|
  {
    if Root(s) { DroppedBytes(s[1..]); }
    else if Here(s) { DroppedBytes(s[2..]); }
    else if Up(s) { DroppedBytes(s[3..]); }
  }

  // ----- reading a header -----

  datatype Parse = Eof | Entry(name: seq<int>, typ: int, size: int) | Error(message: string)

  predicate AllZero(h: seq<int>) { forall k :: 0 <= k < |h| ==> h[k] == 0 }

  /** What a header says. */
  function Parsed(h: seq<int>): Parse
    requires |h| == HEADER_SIZE
  {
    if AllZero(h) then Eof
    else if h[257..263] != USTAR_NUL then Error("not a ustar archive")
    else if h[263] != 48 || h[264] != 48 then Error("invalid ustar version")
    else if ParsedOctal(h[CHKSUM..CHKSUM_END]) == None then Error("corrupt chksum field")
    else if ParsedOctal(h[CHKSUM..CHKSUM_END]).value != Sum(h, HEADER_SIZE) then Error("checksum mismatch")
    else if h[99] != 0 || h[345] != 0 then Error("file name too long")
    else if h[156] == DIRECTORY then Entry(Strip(CStringAt(h, 0)), DIRECTORY, 0)
    else if h[156] != REGULAR then Error("unimplemented file type")
    else if ParsedOctal(h[124..136]) == None then Error("corrupt file size field")
    else if ParsedOctal(h[124..136]).value > INT_MAX then Error("file too large")
    else Entry(Strip(CStringAt(h, 0)), REGULAR, ParsedOctal(h[124..136]).value)
  }

  method IsAllZeros(h: array<int>) returns (r: bool)
    ensures r == AllZero(h[..])
  {
    var i := 0;
    while i < h.Length
      invariant 0 <= i <= h.Length && forall k :: 0 <= k < i ==> h[k] == 0
    {
      if h[i] != 0 { return false; }
      i := i + 1;
    }
    return true;
  }

  /** `ustar_parse_header` */
  method ParseHeader(h: array<int>) returns (r: Parse)
    requires h.Length == HEADER_SIZE
    ensures r == Parsed(h[..])
  {
    hide AllZero, ParsedOctal, Sum, Strip, CStringAt;
    ghost var m := h[..];
    var zeros := IsAllZeros(h);
    if zeros { return Eof; }
    if h[257..263] != USTAR_NUL { return Error("not a ustar archive"); }
    if h[263] != 48 || h[264] != 48 { return Error("invalid ustar version"); }
    var field := ParseOctalField(h, CHKSUM, CHKSUM_END - CHKSUM);
    assert h[CHKSUM..CHKSUM_END] == m[CHKSUM..CHKSUM_END];
    if field.None? { return Error("corrupt chksum field"); }
    var chksum := CalculateChksum(h);
    if field.value != chksum { return Error("checksum mismatch"); }
    if h[99] != 0 || h[345] != 0 { return Error("file name too long"); }
    if h[156] != REGULAR && h[156] != DIRECTORY { return Error("unimplemented file type"); }
    var size := 0;
    if h[156] == REGULAR {
      var sizeField := ParseOctalField(h, 124, 12);
      assert h[124..136] == m[124..136];
      if sizeField.None? { return Error("corrupt file size field"); }
      if sizeField.value > INT_MAX { return Error("file too large"); }
      size := sizeField.value;
    }
    var name := StripAntisocialPrefixes(CStringAt(h[..], 0));
    return Entry(name, h[156], size);
  }

  // ----- round trip -----

  lemma PutOther(h: seq<int>, at: int, b: seq<int>, o: int, n: int)
    requires 0 <= at && at + |b| <= |h| && 0 <= o && 0 <= n && o + n <= |h| && (o + n <= at || at + |b| <= o)
    ensures Put(h, at, b)[o..o + n] == h[o..o + n]
  {
    var r := Put(h, at, b);
    forall k | o <= k < o + n ensures r[k] == h[k] {}
  }

  lemma PutSame(h: seq<int>, at: int, b: seq<int>)
    requires 0 <= at && at + |b| <= |h|
    ensures Put(h, at, b)[at..at + |b|] == b
  {
    var r := Put(h, at, b);
    forall k | at <= k < at + |b| ensures r[k] == b[k - at] {}
  }

  /** A field written before size and mtime stays. */
  lemma RestKeeps(h: seq<int>, typ: int, size: int, o: int, n: int)
    requires |h| == HEADER_SIZE && IsInt(size) && 0 <= o && 0 <= n &&
      (o + n <= 124 || (302 <= o && o + n <= HEADER_SIZE))
    ensures Rooted(Typed(Sized(h, size), typ))[o..o + n] == h[o..o + n]
  {
    hide Put, OctalText, Pow8;
    Pow8Values();
    var a, b := OctalText(Unsigned(size), 11) + [0], OctalText(MTIME, 11) + [0];
    PutOther(h, 124, a, o, n);
    PutOther(Put(h, 124, a), 136, b, o, n);
    TypedKeeps(Sized(h, size), typ, o, n);
    RootedKeeps(Typed(Sized(h, size), typ), o, n);
  }

  lemma TypedKeeps(h: seq<int>, typ: int, o: int, n: int)
    requires |h| == HEADER_SIZE && 0 <= o && 0 <= n && (o + n <= 156 || (265 <= o && o + n <= HEADER_SIZE))
    ensures Typed(h, typ)[o..o + n] == h[o..o + n]
  {
    hide Put;
    PutOther(h, 156, [typ], o, n);
    PutOther(Put(h, 156, [typ]), 257, USTAR_NUL, o, n);
    PutOther(Put(Put(h, 156, [typ]), 257, USTAR_NUL), 263, [48, 48], o, n);
  }

  lemma RootedKeeps(h: seq<int>, o: int, n: int)
    requires |h| == HEADER_SIZE && 0 <= o && 0 <= n && (o + n <= 265 || (302 <= o && o + n <= HEADER_SIZE))
    ensures Rooted(h)[o..o + n] == h[o..o + n]
  {
    hide Put;
    PutOther(h, 297, ROOT_NUL, o, n);
    PutOther(Put(h, 297, ROOT_NUL), 265, ROOT_NUL, o, n);
  }

  lemma OwnerFields(name: seq<int>, typ: int)
    requires |name| <= 99
    ensures var h := Owner(name, typ); h[0..|name| + 1] == name + [0] && h[99..100] == [0] && h[345..346] == [0]
  {
    var h := Owner(name, typ);
    Pow8Values();
    hide OctalText, Pow8;
    assert forall k :: 0 <= k <= |name| ==> h[k] == (name + [0])[k];
    assert h[99] == 0 && h[345] == 0;
  }

  lemma SizedField(h: seq<int>, size: int)
    requires |h| == HEADER_SIZE && IsInt(size)
    ensures 0 <= Unsigned(size) < Pow8(11) && Sized(h, size)[124..136] == OctalText(Unsigned(size), 11) + [0]
  {
    hide Put, OctalText, Pow8;
    Pow8Values();
    var a, b := OctalText(Unsigned(size), 11) + [0], OctalText(MTIME, 11) + [0];
    PutSame(h, 124, a);
    PutOther(Put(h, 124, a), 136, b, 124, 12);
  }

  lemma TypedFields(h: seq<int>, typ: int)
    requires |h| == HEADER_SIZE
    ensures var r := Typed(h, typ); r[156..157] == [typ] && r[257..263] == USTAR_NUL && r[263..265] == [48, 48]
  {
    hide Put;
    var h1 := Put(h, 156, [typ]);
    var h2 := Put(h1, 257, USTAR_NUL);
    PutSame(h, 156, [typ]);
    PutOther(h1, 257, USTAR_NUL, 156, 1);
    PutOther(h2, 263, [48, 48], 156, 1);
    PutSame(h1, 257, USTAR_NUL);
    PutOther(h2, 263, [48, 48], 257, 6);
    PutSame(h2, 263, [48, 48]);
  }

  /** The fields of a header that parsing looks at. */
  ghost predicate Fields(h: seq<int>, name: seq<int>, typ: int, size: int) {
    && |h| == HEADER_SIZE && 0 <= Unsigned(size) < Pow8(11) && |name| <= 99
    && h[0..|name| + 1] == name + [0] && h[99..100] == [0] && h[345..346] == [0]
    && h[124..136] == OctalText(Unsigned(size), 11) + [0]
    && h[156..157] == [typ] && h[257..263] == USTAR_NUL && h[263..265] == [48, 48]
  }

  lemma UnsummedFields(name: seq<int>, typ: int, size: int)
    requires HeaderArgs(name, typ, size)
    ensures Fields(Unsummed(name, typ, size), name, typ, size)
  {
    hide OctalText, Pow8, Owner, Sized, Typed, Rooted;
    var h0 := Owner(name, typ);
    var h1 := Sized(h0, size);
    var h2 := Typed(h1, typ);
    OwnerFields(name, typ);
    RestKeeps(h0, typ, size, 0, |name| + 1);
    RestKeeps(h0, typ, size, 99, 1);
    RestKeeps(h0, typ, size, 345, 1);
    SizedField(h0, size);
    TypedKeeps(h1, typ, 124, 12);
    RootedKeeps(h2, 124, 12);
    TypedFields(h1, typ);
    RootedKeeps(h2, 156, 1);
    RootedKeeps(h2, 257, 6);
    RootedKeeps(h2, 263, 2);
  }

  lemma HeaderFields(name: seq<int>, typ: int, size: int)
    requires HeaderArgs(name, typ, size)
    ensures Fields(Header(name, typ, size), name, typ, size)
    ensures Header(name, typ, size)[CHKSUM..CHKSUM_END] == ChksumText(name, typ, size) + [0]
  {
    hide OctalText, Pow8, Unsummed, ChksumText, Put;
    var h, b := Unsummed(name, typ, size), ChksumText(name, typ, size) + [0];
    UnsummedFields(name, typ, size);
    PutOther(h, CHKSUM, b, 0, |name| + 1);
    PutOther(h, CHKSUM, b, 99, 1);
    PutOther(h, CHKSUM, b, 345, 1);
    PutOther(h, CHKSUM, b, 124, 12);
    PutOther(h, CHKSUM, b, 156, 1);
    PutOther(h, CHKSUM, b, 257, 6);
    PutOther(h, CHKSUM, b, 263, 2);
    PutSame(h, CHKSUM, b);
  }

  /** Digits that fit, ended by a null, parse back without overflow. */
  lemma OctalParsesBack(s: seq<int>)
    requires s != [] && IsOctal(s) && OctalValue(s) <= ULONG_MAX
    ensures ParsedOctal(s + [0]) == Some(OctalValue(s))
  {
    hide OctalValue;
    DigitRunIs(s + [0], |s|);
    assert (s + [0])[..|s|] == s;
  }

  /** The checksum in a header is the checksum of the header. */
  lemma ChecksumHolds(name: seq<int>, typ: int, size: int)
    requires HeaderArgs(name, typ, size)
    ensures ParsedOctal(Header(name, typ, size)[CHKSUM..CHKSUM_END]) == Some(Sum(Header(name, typ, size), HEADER_SIZE))
  {
    hide OctalText, Pow8, Unsummed, ParsedOctal, Sum, OctalValue, Put;
    HeaderFields(name, typ, size);
    var h, b := Unsummed(name, typ, size), ChksumText(name, typ, size) + [0];
    OutsidePut(h, b);
    SumIndependent(h, Header(name, typ, size), HEADER_SIZE);
    SumFits(name, typ, size);
    Pow8Values();
    OctalParsesBack(ChksumText(name, typ, size));
  }

  lemma OutsidePut(h: seq<int>, b: seq<int>)
    requires |h| == HEADER_SIZE && |b| == CHKSUM_END - CHKSUM
    ensures var r := Put(h, CHKSUM, b); forall k :: 0 <= k < |h| && !(CHKSUM <= k < CHKSUM_END) ==> h[k] == r[k]
  {}

  /** What parsing a made header gives, for every type and size. */
  lemma ParseOfMake(name: seq<int>, typ: int, size: int)
    requires HeaderArgs(name, typ, size)
    ensures Parsed(Header(name, typ, size)) ==
      if typ == DIRECTORY then Entry(Strip(name), DIRECTORY, 0) else if size < 0 then Error("file too large")
        else Entry(Strip(name), REGULAR, size)
  {
    hide OctalText, Pow8, Header, ParsedOctal, Sum, OctalValue, Strip, CStringAt, AllZero;
    var h := Header(name, typ, size);
    HeaderFields(name, typ, size);
    ChecksumHolds(name, typ, size);
    HeaderBytesAre(h, name, typ, size);
    var s := OctalText(Unsigned(size), 11);
    OctalParsesBack(s);
  }

  lemma HeaderBytesAre(h: seq<int>, name: seq<int>, typ: int, size: int)
    requires Fields(h, name, typ, size) && NoNull(name)
    ensures h[99] == 0 && h[345] == 0 && h[156] == typ && h[263] == 48 && h[264] == 48 && !AllZero(h) &&
      CStringAt(h, 0) == name
  {
    hide OctalText, Pow8, CStringAt;
    assert h[99] == h[99..100][0] && h[345] == h[345..346][0] && h[156] == h[156..157][0];
    assert h[263] == h[263..265][0] && h[264] == h[263..265][1] && h[257] == h[257..263][0];
    assert h[|name|] == h[0..|name| + 1][|name|];
    assert h[0..|name|] == h[0..|name| + 1][..|name|] == name;
    CStringIs(h, 0, |name|);
  }

  /**
   * ustar_parse_header undoes ustar_make_header, for names that strip to at
   * most 99 bytes, if and only if a regular file's size is not negative and a
   * directory's size is 0.
   */
  lemma RoundTrip(fileName: seq<int>, typ: int, size: int)
    requires HeaderArgs(Strip(fileName), typ, size)
    ensures Parsed(Header(Strip(fileName), typ, size)) == Entry(Strip(fileName), typ, size)
       <==> (if typ == REGULAR then 0 <= size else size == 0)
  {
    hide Header, Parsed, Strip;
    ParseOfMake(Strip(fileName), typ, size);
    StripIdempotent(fileName);
  }

  /** No change of a single byte outside the checksum field goes unnoticed. */
  lemma CorruptionNoticed(h: seq<int>, k: int, b: int)
    requires |h| == HEADER_SIZE && 0 <= k < HEADER_SIZE && !(CHKSUM <= k < CHKSUM_END) && b != h[k] && Parsed(h).Entry?
    ensures !Parsed(h[k := b]).Entry?
  {
    hide ParsedOctal, Sum, Strip, CStringAt;
    assert h[k := b][CHKSUM..CHKSUM_END] == h[CHKSUM..CHKSUM_END];
    SumChange(h, k, b, HEADER_SIZE);
  }
}
