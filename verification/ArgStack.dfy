/**
 * The command line of a new process (pintos/src/userprog/process.c): load
 * splits it into words, setup_stack lays them out on the stack page.
 */
module ArgStack {
  import opened Options
  import opened Buffers
  import opened Strings
  import Sectors

  const PAGE_SIZE := 4096
  /** The user address of the stack page, PHYS_BASE - PGSIZE. */
  const STACK_PAGE := 0xbfff_f000

  // ----- splitting -----

  /** What strlcpy (s, file_name, PGSIZE) keeps of the command line. */
  function Line(cmd: seq<int>): seq<int> { if |cmd| < PAGE_SIZE then cmd else cmd[..PAGE_SIZE - 1] }

  /** The page holds line, then a null. */
  ghost predicate Holds(m: seq<int>, line: seq<int>) {
    |line| < |m| && m[..|line|] == line && m[|line|] == 0 && NoNull(line)
  }

  /** The tokenizer stands at `save`: what follows is untouched. */
  ghost predicate StandsAt(m: seq<int>, line: seq<int>, save: int) {
    |line| < |m| && 0 <= save <= |line| && m[save..|line|] == line[save..] && m[|line|] == 0 && NoNull(line)
  }

  lemma StandsStart(m: seq<int>, line: seq<int>)
    requires Holds(m, line)
    ensures StandsAt(m, line, 0) && line[0..] == line
  {
    assert m[0..|line|] == m[..|line|];
  }

  lemma StandsNoNull(m: seq<int>, line: seq<int>, save: int)
    requires StandsAt(m, line, save)
    ensures NoNull(m[save..|line|])
  {}

  /** strtok_r moved from save to save', changing nothing further on. */
  lemma StandsNext(m: seq<int>, m': seq<int>, line: seq<int>, save: int, save': int)
    requires StandsAt(m, line, save) && save <= save' <= |line| && |m'| == |m|
    requires forall k :: 0 <= k < |m| && !(save <= k < save') ==> m'[k] == m[k]
    ensures StandsAt(m', line, save') && m[save'..|line|] == line[save'..]
  {
    forall k | save' <= k < |line| ensures m[k] == line[k] {
      assert m[save..|line|][k - save] == line[save..][k - save];
    }
  }

  /** The next token, by the words still ahead. */
  method NextToken(s: array<int>, save0: int, ghost line: seq<int>) returns (token: Option<int>, save: int)
    requires StandsAt(s[..], line, save0)
    modifies s
    ensures StandsAt(s[..], line, save) && save0 <= save <= |line|
    ensures token.None? ==> Words(line[save0..], SPACE) == []
    ensures token.Some? ==>
      save0 < save && 0 <= token.value < s.Length &&
      Words(line[save0..], SPACE) == [CStringAt(s[..], token.value)] + Words(line[save..], SPACE)
  {
    hide Words, CStringAt, NoNull;
    StandsNoNull(s[..], line, save0);
    ghost var m := s[..];
    assert s[save0..|line|] == m[save0..|line|];
    token, save := StrtokR(s, save0, SPACE, |line|);
    StandsNext(m, s[..], line, save0, save);
  }

  /** The first pass of load. */
  method CountArgs(s: array<int>, ghost line: seq<int>) returns (argc: int)
    requires Holds(s[..], line)
    modifies s
    ensures argc == |Words(line, SPACE)|
  {
    hide Words, CStringAt, Holds, StandsAt;
    StandsStart(s[..], line);
    argc := 0;
    var token, save := NextToken(s, 0, line);
    while token.Some?
      invariant StandsAt(s[..], line, save) && save <= |line|
      invariant if token.Some? then argc + 1 + |Words(line[save..], SPACE)| == |Words(line, SPACE)|
        else argc == |Words(line, SPACE)|
      decreases |line| - save, token.Some?
    {
      argc := argc + 1;
      token, save := NextToken(s, save, line);
    }
  }

  /** The second pass: a copy of each word. */
  method CopyArgs(s: array<int>, ghost line: seq<int>) returns (argv: seq<seq<int>>)
    requires Holds(s[..], line)
    modifies s
    ensures argv == Words(line, SPACE)
  {
    hide Words, CStringAt, Holds, StandsAt;
    StandsStart(s[..], line);
    argv := [];
    var token, save := NextToken(s, 0, line);
    while token.Some?
      invariant StandsAt(s[..], line, save) && save <= |line| && (token.Some? ==> 0 <= token.value < s.Length)
      invariant if token.Some? then argv + [CStringAt(s[..], token.value)] + Words(line[save..], SPACE) ==
        Words(line, SPACE)
        else argv == Words(line, SPACE)
      decreases |line| - save, token.Some?
    {
      argv := argv + [CStringAt(s[..], token.value)];
      ghost var ahead := Words(line[save..], SPACE);
      ghost var done := argv;
      token, save := NextToken(s, save, line);
      assert token.Some? ==> done + ([CStringAt(s[..], token.value)] + Words(line[save..], SPACE)) == done + ahead;
      assert done + [] == done;
    }
  }

  lemma LineHeld(was: seq<int>, cmd: seq<int>)
    requires |was| == PAGE_SIZE && NoNull(cmd)
    ensures |Terminated(cmd, PAGE_SIZE)| <= PAGE_SIZE && Holds(Put(was, 0, Terminated(cmd, PAGE_SIZE)), Line(cmd))
  {
    var m := Put(was, 0, Terminated(cmd, PAGE_SIZE));
    var line := Line(cmd);
    assert m[..|line|] == line;
  }

  /**
   * The argument part of `load`: both passes find the words of the command
   * line, and without a word malloc (0) is null and the load fails.
   */
  method LoadArgs(cmd: seq<int>, s: array<int>) returns (argv: Option<seq<seq<int>>>)
    requires s.Length == PAGE_SIZE && NoNull(cmd)
    modifies s
    ensures argv == if Words(Line(cmd), SPACE) == [] then None else Some(Words(Line(cmd), SPACE))
  {
    hide Words, Holds, NoNull, Terminated, Line, Put;
    ghost var line := Line(cmd);
    LineHeld(s[..], cmd);
    var n := Strlcpy(s, 0, cmd, PAGE_SIZE);
    var argc := CountArgs(s, line);
    LineHeld(s[..], cmd);
    n := Strlcpy(s, 0, cmd, PAGE_SIZE);
    if argc == 0 { return None; }
    var words := CopyArgs(s, line);
    return Some(words);
  }

  // ----- the stack image -----

  /** The user address of byte `off` of the stack page. */
  function Addr(off: int): int { STACK_PAGE + off }

  /** Little-endian bytes of a word. */
  function Bytes(w: int): (b: seq<int>)
    ensures |b| == 4
  {
    if 0 <= w < 0x1_0000_0000 then Sectors.WordBytes(w) else [0, 0, 0, 0]
  }

  /** The words, each with its null, from low to high addresses. */
  function Text(args: seq<seq<int>>): seq<int> {
    if args == [] then [] else args[0] + [0] + Text(args[1..])
  }

  /** Where argument i begins. */
  function ArgOff(args: seq<seq<int>>, i: int): int
    requires 0 <= i <= |args|
  {
    PAGE_SIZE - |Text(args[i..])|
  }

  /** The address words of arguments i, i + 1, ... */
  function Pointers(args: seq<seq<int>>, i: int): (s: seq<int>)
    requires 0 <= i <= |args|
    ensures |s| == 4 * (|args| - i)
    decreases |args| - i
  {
    if i == |args| then [] else Bytes(Addr(ArgOff(args, i))) + Pointers(args, i + 1)
  }

  /** The offset of the aligned end of the pointers: the strings' start, rounded down. */
  function AlignedOff(args: seq<seq<int>>): int { ArgOff(args, 0) - ArgOff(args, 0) % 4 }

  /** The final stack pointer, as an offset; it is where the lowest byte is written. */
  function EspOff(args: seq<seq<int>>): int { AlignedOff(args) - 4 * (|args| + 4) }

  /** The image fits the stack page. */
  predicate Fits(args: seq<seq<int>>) { 0 <= EspOff(args) }

  function Zeros(n: int): (s: seq<int>)
    ensures |s| == (if n < 0 then 0 else n) && forall k :: 0 <= k < |s| ==> s[k] == 0
  {
    if n <= 0 then [] else [0] + Zeros(n - 1)
  }

  /** Everything from the final stack pointer to the end of the page. */
  function Image(args: seq<seq<int>>): seq<int> {
    Bytes(0) + Bytes(|args|) + Bytes(Addr(EspOff(args) + 12)) +
      Pointers(args, 0) + Bytes(0) + Zeros(ArgOff(args, 0) % 4) + Text(args)
  }

  // ----- setup_stack -----

  /** From p up the page holds t; below p it is as it was. */
  ghost predicate Top(was: seq<int>, m: seq<int>, p: int, t: seq<int>) {
    |m| == |was| && 0 <= p <= |m| && m[p..] == t && m[..p] == was[..p]
  }

  /** Writes b just below offset p. */
  method Push(page: array<int>, p: int, b: seq<int>, ghost was: seq<int>, ghost t: seq<int>) returns (q: int)
    requires |b| <= p && Top(was, page[..], p, t)
    modifies page
    ensures q == p - |b| && Top(was, page[..], q, b + t)
  {
    q := p - |b|;
    var i := 0;
    ghost var m := page[..];
    while i < |b|
      invariant 0 <= i <= |b|
      invariant forall k :: 0 <= k < page.Length ==> page[k] == if q <= k < q + i then b[k - q] else m[k]
    {
      page[q + i] := b[i];
      i := i + 1;
    }
    Pushed(was, m, page[..], p, b, t);
  }

  lemma Pushed(was: seq<int>, m: seq<int>, m': seq<int>, p: int, b: seq<int>, t: seq<int>)
    requires |b| <= p && Top(was, m, p, t) && |m'| == |m|
    requires forall k :: 0 <= k < |m| ==> m'[k] == if p - |b| <= k < p then b[k - (p - |b|)] else m[k]
    ensures Top(was, m', p - |b|, b + t)
  {
    var q := p - |b|;
    forall k | 0 <= k < |m'| - q ensures m'[q..][k] == (b + t)[k] {
      if k >= |b| { assert m[q + k] == m[p..][k - |b|]; }
    }
    forall k | 0 <= k < q ensures m'[k] == was[k] { assert m[..p][k] == was[..p][k]; }
  }

  lemma TextStep(args: seq<seq<int>>, i: int)
    requires 0 <= i < |args|
    ensures Text(args[i..]) == args[i] + [0] + Text(args[i + 1..]) &&
      ArgOff(args, i) == ArgOff(args, i + 1) - |args[i]| - 1
  {
    assert args[i..][1..] == args[i + 1..];
  }

  lemma {:induction false} OffsGrow(args: seq<seq<int>>, i: int, j: int)
    requires 0 <= i <= j <= |args|
    ensures ArgOff(args, i) <= ArgOff(args, j) <= PAGE_SIZE
    decreases j - i
  {
    if i < j {
      TextStep(args, i);
      OffsGrow(args, i + 1, j);
    }
  }

  lemma TextEnd(args: seq<seq<int>>)
    ensures ArgOff(args, |args|) == PAGE_SIZE && Text(args[|args|..]) == [] && args[0..] == args
  {}

  /** The words go on the stack from the last to the first. */
  method PushText(args: seq<seq<int>>, page: array<int>, ghost was: seq<int>) returns (p: int, addrs: seq<int>)
    requires page.Length == PAGE_SIZE && page[..] == was && 0 <= ArgOff(args, 0)
    modifies page
    ensures p == ArgOff(args, 0) && Top(was, page[..], p, Text(args))
    ensures |addrs| == |args| && forall k :: 0 <= k < |args| ==> addrs[k] == ArgOff(args, k)
  {
    hide Text, ArgOff;
    var i := |args|;
    p, addrs := PAGE_SIZE, [];
    TextEnd(args);
    while i > 0
      invariant 0 <= i <= |args| && p == ArgOff(args, i) && Top(was, page[..], p, Text(args[i..]))
      invariant |addrs| == |args| - i && forall k :: 0 <= k < |addrs| ==> addrs[k] == ArgOff(args, i + k)
    {
      i := i - 1;
      TextStep(args, i);
      OffsGrow(args, 0, i);
      p := Push(page, p, args[i] + [0], was, Text(args[i + 1..]));
      addrs := [p] + addrs;
    }
  }

  lemma ZerosStep(n: int, t: seq<int>)
    requires 0 <= n
    ensures [0] + (Zeros(n) + t) == Zeros(n + 1) + t && Zeros(0) + t == t
  {
    assert Zeros(n + 1) == [0] + Zeros(n);
  }

  /** Zero bytes down to a multiple of four. */
  method Align(page: array<int>, p0: int, ghost was: seq<int>, ghost t: seq<int>) returns (p: int)
    requires Top(was, page[..], p0, t)
    modifies page
    ensures p == p0 - p0 % 4 && Top(was, page[..], p, Zeros(p0 % 4) + t)
  {
    hide Zeros, Top;
    TopBounds(was, page[..], p0, t);
    p := p0;
    ZerosStep(0, t);
    while Addr(p) % 4 != 0
      invariant 0 <= p <= p0 && p0 - p <= p0 % 4 && Top(was, page[..], p, Zeros(p0 - p) + t)
    {
      ZerosStep(p0 - p, t);
      p := Push(page, p, [0], was, Zeros(p0 - p) + t);
    }
  }

  lemma TopBounds(was: seq<int>, m: seq<int>, p: int, t: seq<int>)
    requires Top(was, m, p, t)
    ensures 0 <= p <= |m|
  {}

  lemma PointersEnd(args: seq<seq<int>>, t: seq<int>)
    ensures Pointers(args, |args|) + t == t
  {}

  lemma PointersStep(args: seq<seq<int>>, i: int, t: seq<int>)
    requires 0 <= i < |args|
    ensures Bytes(Addr(ArgOff(args, i))) + (Pointers(args, i + 1) + t) == Pointers(args, i) + t
  {
    hide Bytes, ArgOff;
  }

  /** The null after the last address, then the addresses from the last to the first. */
  method PushPointers(args: seq<seq<int>>, addrs: seq<int>, page: array<int>, p0: int, ghost was: seq<int>,
                      ghost t: seq<int>) returns (p: int)
    requires |addrs| == |args| && (forall k :: 0 <= k < |args| ==> addrs[k] == ArgOff(args, k)) &&
      4 * (|args| + 1) <= p0 && Top(was, page[..], p0, t)
    modifies page
    ensures p == p0 - 4 * (|args| + 1) && Top(was, page[..], p, Pointers(args, 0) + (Bytes(0) + t))
  {
    hide Text, ArgOff, Bytes, Pointers, Top;
    p := Push(page, p0, Bytes(0), was, t);
    ghost var rest := Bytes(0) + t;
    var i := |args|;
    PointersEnd(args, rest);
    while i > 0
      invariant 0 <= i <= |args| && p == p0 - 4 - 4 * (|args| - i) && Top(was, page[..], p, Pointers(args, i) + rest)
    {
      i := i - 1;
      PointersStep(args, i, rest);
      p := Push(page, p, Bytes(Addr(addrs[i])), was, Pointers(args, i + 1) + rest);
    }
  }

  lemma ImageParts(args: seq<seq<int>>)
    ensures Bytes(0) + (Bytes(|args|) + (Bytes(Addr(EspOff(args) + 12)) +
      (Pointers(args, 0) + (Bytes(0) + (Zeros(ArgOff(args, 0) % 4) + Text(args)))))) == Image(args)
  {
    hide Bytes, Pointers, Zeros, ArgOff, Text, EspOff;
  }

  /** `setup_stack` on a fresh page: the image, ending at the top, with the stack pointer at its start. */
  method SetupStack(args: seq<seq<int>>, page: array<int>) returns (esp: int)
    requires page.Length == PAGE_SIZE && Fits(args)
    modifies page
    ensures esp == EspOff(args) && Addr(esp) % 4 == 0 && Top(old(page[..]), page[..], esp, Image(args))
  {
    hide Text, ArgOff, Bytes, Pointers, Zeros, Top, Image;
    ghost var was := page[..];
    var p, addrs := PushText(args, page, was);
    ghost var t := Text(args);
    esp := Align(page, p, was, t);
    t := Zeros(p % 4) + t;
    esp := PushPointers(args, addrs, page, esp, was, t);
    t := Pointers(args, 0) + (Bytes(0) + t);
    var argv := esp;
    esp := Push(page, esp, Bytes(Addr(argv)), was, t);
    t := Bytes(Addr(argv)) + t;
    esp := Push(page, esp, Bytes(|args|), was, t);
    t := Bytes(|args|) + t;
    esp := Push(page, esp, Bytes(0), was, t);
    ImageParts(args);
  }

  // ----- what _start (argc, argv) finds -----

  /** The little-endian word at offset o. */
  function WordAt(m: seq<int>, o: int): int {
    if 0 <= o && o + 4 <= |m| then m[o] + 0x100 * (m[o + 1] + 0x100 * (m[o + 2] + 0x100 * m[o + 3])) else 0
  }

  function Argc(m: seq<int>, esp: int): int { WordAt(m, esp + 4) }

  /** argv[i], as a user address. */
  function Argv(m: seq<int>, esp: int, i: int): int { WordAt(m, WordAt(m, esp + 8) - STACK_PAGE + 4 * i) }

  /** The string a user address points to. */
  function StringAt(m: seq<int>, a: int): seq<int> {
    if 0 <= a - STACK_PAGE <= |m| then CStringAt(m, a - STACK_PAGE) else []
  }

  lemma BytesBack(m: seq<int>, o: int, w: int)
    requires 0 <= o && o + 4 <= |m| && m[o..o + 4] == Bytes(w) && 0 <= w < 0x1_0000_0000
    ensures WordAt(m, o) == w
  {
    var b := m[o..o + 4];
    assert b[0] == m[o] && b[1] == m[o + 1] && b[2] == m[o + 2] && b[3] == m[o + 3];
    assert Sectors.FromBytes(Sectors.WordBytes(w)) == w;
  }

  /** A piece of t, found at its place in the page. */
  lemma Piece(was: seq<int>, m: seq<int>, p: int, a: seq<int>, b: seq<int>, c: seq<int>)
    requires Top(was, m, p, a + b + c)
    ensures p + |a| + |b| <= |m| && m[p + |a|..p + |a| + |b|] == b && Top(was, m, p, a + (b + c))
  {
    assert a + b + c == a + (b + c);
    var t := a + b + c;
    forall k | 0 <= k < |b| ensures m[p + |a| + k] == b[k] { assert m[p..][|a| + k] == t[|a| + k]; }
  }

  lemma {:induction false} PointersSplit(args: seq<seq<int>>, i: int, j: int) returns (a: seq<int>)
    requires 0 <= i <= j <= |args|
    ensures |a| == 4 * (j - i) && Pointers(args, i) == a + Pointers(args, j)
    decreases j - i
  {
    hide Bytes, ArgOff;
    if i == j {
      a := [];
    } else {
      var r := PointersSplit(args, i + 1, j);
      a := Bytes(Addr(ArgOff(args, i))) + r;
    }
  }

  lemma {:induction false} TextSplit(args: seq<seq<int>>, i: int) returns (a: seq<int>)
    requires 0 <= i <= |args|
    ensures Text(args) == a + Text(args[i..]) && |a| == ArgOff(args, i) - ArgOff(args, 0)
  {
    if i == 0 {
      a := [];
      assert args[0..] == args;
    } else {
      var r := TextSplit(args, i - 1);
      TextStep(args, i - 1);
      a := r + (args[i - 1] + [0]);
    }
  }

  /** The part of the image before the strings. */
  function Frame(args: seq<seq<int>>): seq<int> {
    Bytes(0) + Bytes(|args|) + Bytes(Addr(EspOff(args) + 12)) +
      Pointers(args, 0) + Bytes(0) + Zeros(ArgOff(args, 0) % 4)
  }

  lemma FrameLength(args: seq<seq<int>>)
    ensures |Frame(args)| == ArgOff(args, 0) - EspOff(args) && Image(args) == Frame(args) + Text(args)
  {
    hide Bytes, Text, ArgOff;
  }

  /** argv[i] is the address of argument i. */
  lemma ArgvIs(was: seq<int>, m: seq<int>, args: seq<seq<int>>, i: int)
    requires |m| == PAGE_SIZE && Fits(args) && 0 <= i < |args| && Top(was, m, EspOff(args), Image(args))
    ensures WordAt(m, EspOff(args) + 12 + 4 * i) == Addr(ArgOff(args, i))
  {
    hide Bytes, Text, ArgOff, Pointers, Zeros, Top, WordAt, Fits, EspOff;
    var head, tail := Bytes(0) + Bytes(|args|) + Bytes(Addr(EspOff(args) + 12)),
      Bytes(0) + Zeros(ArgOff(args, 0) % 4) + Text(args);
    var a := PointersSplit(args, 0, i);
    var b := Bytes(Addr(ArgOff(args, i)));
    PointersStep(args, i, []);
    assert Pointers(args, i) == b + Pointers(args, i + 1) by { PointersUnfold(args, i); }
    assert Image(args) == (head + a) + b + (Pointers(args, i + 1) + tail);
    Piece(was, m, EspOff(args), head + a, b, Pointers(args, i + 1) + tail);
    OffBounds(args, i);
    BytesBack(m, EspOff(args) + 12 + 4 * i, Addr(ArgOff(args, i)));
  }

  lemma PointersUnfold(args: seq<seq<int>>, i: int)
    requires 0 <= i < |args|
    ensures Pointers(args, i) == Bytes(Addr(ArgOff(args, i))) + Pointers(args, i + 1)
  {}

  lemma OffBounds(args: seq<seq<int>>, i: int)
    requires Fits(args) && 0 <= i <= |args|
    ensures 0 <= EspOff(args) && 0 <= ArgOff(args, i) <= PAGE_SIZE && EspOff(args) + 16 + 4 * |args| <= PAGE_SIZE &&
      EspOff(args) % 4 == 0
  {
    OffsGrow(args, 0, i);
    OffsGrow(args, 0, |args|);
  }

  /** Its bytes are argument i, up to a null. */
  lemma ArgIs(was: seq<int>, m: seq<int>, args: seq<seq<int>>, i: int)
    requires |m| == PAGE_SIZE && Fits(args) && 0 <= i < |args| && Top(was, m, EspOff(args), Image(args)) &&
      NoNull(args[i])
    ensures 0 <= ArgOff(args, i) <= |m| && CStringAt(m, ArgOff(args, i)) == args[i]
  {
    hide Bytes, Text, ArgOff, Pointers, Zeros, Top, Fits, EspOff, Image, Frame, CStringAt;
    FrameLength(args);
    OffBounds(args, i);
    var a := TextSplit(args, i);
    TextStep(args, i);
    var rest := Text(args[i + 1..]);
    var o := ArgOff(args, i);
    assert Image(args) == (Frame(args) + a) + args[i] + ([0] + rest);
    Piece(was, m, EspOff(args), Frame(args) + a, args[i], [0] + rest);
    assert Image(args) == (Frame(args) + a + args[i]) + [0] + rest;
    Piece(was, m, EspOff(args), Frame(args) + a + args[i], [0], rest);
    assert m[o + |args[i]|..o + |args[i]| + 1][0] == 0;
    CStringIs(m, o, o + |args[i]|);
  }

  lemma WordsIs(was: seq<int>, m: seq<int>, args: seq<seq<int>>)
    requires |m| == PAGE_SIZE && Fits(args) && Top(was, m, EspOff(args), Image(args))
    ensures Argc(m, EspOff(args)) == |args| && WordAt(m, EspOff(args) + 8) == Addr(EspOff(args) + 12)
    ensures WordAt(m, EspOff(args) + 12 + 4 * |args|) == 0
  {
    hide Bytes, Text, ArgOff, Pointers, Zeros, Top, WordAt, Fits, EspOff;
    var w0, w1, w2, rest := Bytes(0), Bytes(|args|), Bytes(Addr(EspOff(args) + 12)),
      Zeros(ArgOff(args, 0) % 4) + Text(args);
    OffBounds(args, 0);
    assert Image(args) == w0 + w1 + (w2 + Pointers(args, 0) + w0 + rest);
    Piece(was, m, EspOff(args), w0, w1, w2 + Pointers(args, 0) + w0 + rest);
    BytesBack(m, EspOff(args) + 4, |args|);
    assert Image(args) == (w0 + w1) + w2 + (Pointers(args, 0) + w0 + rest);
    Piece(was, m, EspOff(args), w0 + w1, w2, Pointers(args, 0) + w0 + rest);
    BytesBack(m, EspOff(args) + 8, Addr(EspOff(args) + 12));
    assert Image(args) == (w0 + w1 + w2 + Pointers(args, 0)) + w0 + rest;
    Piece(was, m, EspOff(args), w0 + w1 + w2 + Pointers(args, 0), w0, rest);
    BytesBack(m, EspOff(args) + 12 + 4 * |args|, 0);
  }

  /** Decoding the stack from esp yields exactly the words, in order, with a null after the last. */
  lemma StackDecodes(was: seq<int>, m: seq<int>, args: seq<seq<int>>)
    requires |m| == PAGE_SIZE && Fits(args) && Top(was, m, EspOff(args), Image(args)) &&
      forall i :: 0 <= i < |args| ==> NoNull(args[i])
    ensures Argc(m, EspOff(args)) == |args| && Argv(m, EspOff(args), |args|) == 0
    ensures forall i :: 0 <= i < |args| ==> StringAt(m, Argv(m, EspOff(args), i)) == args[i]
    ensures Addr(EspOff(args)) % 4 == 0
  {
    hide Bytes, Text, ArgOff, Pointers, Zeros, Top, WordAt, Image, CStringAt, NoNull;
    WordsIs(was, m, args);
    OffBounds(args, 0);
    forall i | 0 <= i < |args| ensures StringAt(m, Argv(m, EspOff(args), i)) == args[i] {
      ArgvIs(was, m, args, i);
      ArgIs(was, m, args, i);
    }
  }

  /** Words are not empty and contain neither blanks nor nulls. */
  lemma {:induction false} WordsAre(s: seq<int>, i: int)
    requires NoNull(s) && 0 <= i < |Words(s, SPACE)|
    ensures Words(s, SPACE)[i] != [] && BLANK !in Words(s, SPACE)[i] && NoNull(Words(s, SPACE)[i])
    decreases |s|
  {
    hide WordLen;
    if s[0] == BLANK {
      WordsAre(s[1..], i);
    } else {
      var n := WordLen(s, SPACE);
      FirstIsWord(s);
      if i > 0 { WordsAre(s[n..], i - 1); }
    }
  }

  lemma FirstIsWord(s: seq<int>)
    requires s != [] && s[0] != BLANK
    ensures 0 < WordLen(s, SPACE) && BLANK !in s[..WordLen(s, SPACE)]
  {}

  /** From the command line to the arguments of main. */
  method PassArguments(cmd: seq<int>, s: array<int>, page: array<int>) returns (esp: Option<int>)
    requires s.Length == PAGE_SIZE && page.Length == PAGE_SIZE && s != page && NoNull(cmd) &&
      Fits(Words(Line(cmd), SPACE))
    modifies s, page
    ensures esp.None? <==> Words(Line(cmd), SPACE) == []
    ensures esp.Some? ==> Addr(esp.value) % 4 == 0 && Argc(page[..], esp.value) == |Words(Line(cmd), SPACE)|
    ensures esp.Some? ==> forall i :: 0 <= i < |Words(Line(cmd), SPACE)| ==>
      StringAt(page[..], Argv(page[..], esp.value, i)) == Words(Line(cmd), SPACE)[i]
    ensures esp.Some? ==> Argv(page[..], esp.value, |Words(Line(cmd), SPACE)|) == 0
  {
    hide Words, NoNull, Line, Fits, Top, Image, Argc, Argv, StringAt, EspOff;
    var argv := LoadArgs(cmd, s);
    if argv.None? { return None; }
    ghost var was := page[..];
    var p := SetupStack(argv.value, page);
    LineWords(cmd);
    StackDecodes(was, page[..], argv.value);
    return Some(p);
  }

  lemma LineWords(cmd: seq<int>)
    requires NoNull(cmd)
    ensures forall i :: 0 <= i < |Words(Line(cmd), SPACE)| ==> NoNull(Words(Line(cmd), SPACE)[i])
  {
    hide Words;
    forall i | 0 <= i < |Words(Line(cmd), SPACE)| ensures NoNull(Words(Line(cmd), SPACE)[i]) { WordsAre(Line(cmd), i); }
  }
}
