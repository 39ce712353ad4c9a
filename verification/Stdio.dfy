/** Integer conversions of pintos/src/lib/stdio.c.  Characters are their codes. */
module Stdio {
  import opened Buffers

  const COMMA := 44
  const PLUS := 43
  const MINUS := 45
  const BLANK := 32
  const ZERO := 48

  /** The flags, width and precision of a conversion. */
  datatype Conversion = Conversion(minus: bool, plus: bool, space: bool, pound: bool, zero: bool, group: bool,
                                   width: int, precision: int)

  /** x is the code of the `x' character, for base 16 only. */
  datatype Base = Base(base: int, upper: bool, x: int, group: int)

  const BASE_D := Base(10, false, 0, 3)
  const BASE_O := Base(8, false, 0, 3)
  const BASE_X := Base(16, false, 120, 4)
  const BASE_XX := Base(16, true, 88, 4)

  predicate IsBase(b: Base) { b == BASE_D || b == BASE_O || b == BASE_X || b == BASE_XX }

  const BUF_SIZE := 64
  const UINTMAX_MAX := 0xffff_ffff_ffff_ffff

  /** b->digits[d] */
  function DigitChar(d: int, b: Base): int { if d < 10 then ZERO + d else if b.upper then 55 + d else 87 + d }

  /** The character ch n times, as output_dup sends it. */
  function Times(ch: int, n: int): (s: seq<int>)
    ensures |s| == (if n < 0 then 0 else n) && forall k :: 0 <= k < |s| ==> s[k] == ch
  {
    if n <= 0 then [] else Times(ch, n - 1) + [ch]
  }

  function Reversed(s: seq<int>): (r: seq<int>)
    ensures |r| == |s|
  {
    if s == [] then [] else Reversed(s[1..]) + [s[0]]
  }

  // ----- digits -----

  function Quot(v: int, b: Base): int { if b.base == 8 then v / 8 else if b.base == 10 then v / 10 else v / 16 }

  function Rem(v: int, b: Base): int { v - b.base * Quot(v, b) }

  lemma QuotRem(v: int, b: Base)
    requires IsBase(b) && 0 <= v
    ensures 0 <= Rem(v, b) < b.base && 0 <= Quot(v, b) && Quot(v, b) <= v / 8 && (0 < v ==> Quot(v, b) < v)
  {}

  function Comma(b: Base, group: bool, cnt: nat): seq<int> {
    if group && cnt > 0 && (if b.group == 3 then cnt % 3 else cnt % 4) == 0 then [COMMA] else []
  }

  /** The digits of v, least significant first, with a comma before each further group. */
  function Digits(v: int, b: Base, group: bool, cnt: nat): seq<int>
    requires IsBase(b) && 0 <= v
    decreases v
  {
    QuotRem(v, b);
    if v == 0 then []
    else Comma(b, group, cnt) + [DigitChar(Rem(v, b), b)] + Digits(Quot(v, b), b, group, cnt + 1)
  }

  function CharDigit(ch: int): int { if ch <= 57 then ch - ZERO else if ch <= 90 then ch - 55 else ch - 87 }

  /** What digits, least significant first, denote; separators do not count. */
  function Value(s: seq<int>, b: Base): int {
    if s == [] then 0
    else if s[0] == COMMA then Value(s[1..], b)
    else CharDigit(s[0]) + b.base * Value(s[1..], b)
  }

  lemma DigitBack(d: int, b: Base)
    requires 0 <= d < b.base <= 16
    ensures CharDigit(DigitChar(d, b)) == d && DigitChar(d, b) != COMMA
  {}

  lemma ValueStep(sep: seq<int>, ch: int, rest: seq<int>, b: Base)
    requires (sep == [] || sep == [COMMA]) && ch != COMMA
    ensures Value(sep + [ch] + rest, b) == CharDigit(ch) + b.base * Value(rest, b)
  {
    hide CharDigit;
    var s := sep + [ch] + rest;
    if sep == [] {
      assert s[1..] == rest;
    } else {
      assert s[1..] == [ch] + rest && s[1..][1..] == rest;
    }
  }

  /** The digits denote the number they came from. */
  lemma {:induction false} DigitsValue(v: int, b: Base, group: bool, cnt: nat)
    requires IsBase(b) && 0 <= v
    ensures Value(Digits(v, b, group, cnt), b) == v
    decreases v
  {
    hide Quot, DigitChar, CharDigit, Value;
    if v > 0 {
      QuotRem(v, b);
      var rest := Digits(Quot(v, b), b, group, cnt + 1);
      DigitsValue(Quot(v, b), b, group, cnt + 1);
      DigitBack(Rem(v, b), b);
      ValueStep(Comma(b, group, cnt), DigitChar(Rem(v, b), b), rest, b);
    } else {
      NoDigits(b);
    }
  }

  lemma NoDigits(b: Base)
    ensures Value([], b) == 0
  {}

  function Pow8(k: nat): int { if k == 0 then 1 else 8 * Pow8(k - 1) }

  /** The buffer holds the digits of every 64-bit number, commas included. */
  lemma {:induction false} DigitsLength(v: int, b: Base, group: bool, cnt: nat, k: nat)
    requires IsBase(b) && 0 <= v < Pow8(k)
    ensures |Digits(v, b, group, cnt)| <= 2 * k && (!group ==> |Digits(v, b, group, cnt)| <= k)
  {
    hide Quot, Rem, DigitChar;
    if v > 0 {
      QuotRem(v, b);
      DigitsLength(Quot(v, b), b, group, cnt + 1, k - 1);
    }
  }

  lemma Pow8Of22()
    ensures UINTMAX_MAX < Pow8(22)
  {
    assert Pow8(4) == 0x1000;
    assert Pow8(8) == 0x1000 * 0x1000;
    assert Pow8(12) == 0x1000 * 0x1000 * 0x1000;
    assert Pow8(16) == 0x1000 * 0x1000 * 0x1000 * 0x1000;
    assert Pow8(20) == 0x1000 * 0x1000 * 0x1000 * 0x1000 * 0x1000;
  }

  // ----- the whole conversion -----

  /** The buffer's content: digits, zeros up to the precision, and the leading zero of "%#o". */
  function Body(v: int, b: Base, c: Conversion): seq<int>
    requires IsBase(b) && 0 <= v
  {
    var d := Digits(v, b, c.group, 0);
    var precision := if c.precision < 0 then 1 else if c.precision < BUF_SIZE - 1 then c.precision else BUF_SIZE - 1;
    var z := d + Times(ZERO, precision - |d|);
    if c.pound && b.base == 8 && (z == [] || z[|z| - 1] != ZERO) then z + [ZERO] else z
  }

  function Sign(isSigned: bool, negative: bool, c: Conversion): seq<int> {
    if !isSigned then []
    else if negative then [MINUS]
    else if c.plus then [PLUS]
    else if c.space then [BLANK]
    else []
  }

  function Prefix(v: int, b: Base, c: Conversion): seq<int> {
    if c.pound && v != 0 && b.x != 0 then [ZERO, b.x] else []
  }

  /** Everything a conversion sends: padding, sign, prefix, zeros, digits, padding. */
  function Rendered(v: int, isSigned: bool, negative: bool, b: Base, c: Conversion): seq<int>
    requires IsBase(b) && 0 <= v
  {
    var body, sign, prefix := Body(v, b, c), Sign(isSigned, negative, c), Prefix(v, b, c);
    var pad := c.width - |body| - |prefix| - |sign|;
    DupIf(!c.minus && !c.zero, BLANK, pad) + sign + prefix + DupIf(c.zero, ZERO, pad) +
      Reversed(body) + DupIf(c.minus, BLANK, pad)
  }

  lemma {:induction false} ValueZeros(s: seq<int>, n: int, b: Base)
    ensures Value(s + Times(ZERO, n), b) == Value(s, b)
  {
    if s != [] {
      assert (s + Times(ZERO, n))[1..] == s[1..] + Times(ZERO, n);
      ValueZeros(s[1..], n, b);
    } else {
      assert s + Times(ZERO, n) == Times(ZERO, n);
      AllZeros(Times(ZERO, n), b);
    }
  }

  lemma {:induction false} AllZeros(s: seq<int>, b: Base)
    requires forall k :: 0 <= k < |s| ==> s[k] == ZERO
    ensures Value(s, b) == 0
  {
    if s != [] { AllZeros(s[1..], b); }
  }

  /** Reading the digits back gives the number, whatever the flags; the width is filled and the buffer holds it. */
  lemma BodyValue(v: int, b: Base, c: Conversion)
    requires IsBase(b) && 0 <= v <= UINTMAX_MAX
    ensures Value(Body(v, b, c), b) == v && |Body(v, b, c)| <= BUF_SIZE
  {
    hide Digits, Value;
    var d := Digits(v, b, c.group, 0);
    DigitsValue(v, b, c.group, 0);
    Pow8Of22();
    DigitsLength(v, b, c.group, 0, 22);
    var precision := if c.precision < 0 then 1 else if c.precision < BUF_SIZE - 1 then c.precision else BUF_SIZE - 1;
    ValueZeros(d, precision - |d|, b);
    var z := d + Times(ZERO, precision - |d|);
    ValueZeros(z, 1, b);
    assert Times(ZERO, 1) == [ZERO];
  }

  /** How much of the field sign, prefix and digits take. */
  function Content(v: int, isSigned: bool, negative: bool, b: Base, c: Conversion): int
    requires IsBase(b) && 0 <= v
  {
    |Sign(isSigned, negative, c)| + |Prefix(v, b, c)| + |Body(v, b, c)|
  }

  /** The output is exactly as long as the field, or as its content if that is longer. */
  predicate FillsField(v: int, isSigned: bool, negative: bool, b: Base, c: Conversion)
    requires IsBase(b) && 0 <= v
  {
    var content := Content(v, isSigned, negative, b, c);
    |Rendered(v, isSigned, negative, b, c)| == if c.width > content then c.width else content
  }

  /** The field is filled and not exceeded unless both minus and zero pad it: then zeros
      and blanks are sent for the same room. */
  lemma RenderedLength(v: int, isSigned: bool, negative: bool, b: Base, c: Conversion)
    requires IsBase(b) && 0 <= v
    ensures var content := Content(v, isSigned, negative, b, c);
      FillsField(v, isSigned, negative, b, c) <==> !(c.minus && c.zero && c.width > content)
    ensures var content := Content(v, isSigned, negative, b, c);
      !FillsField(v, isSigned, negative, b, c) ==> |Rendered(v, isSigned, negative, b, c)| == 2 * c.width - content
  {
    hide Body, Digits;
  }

  const INT_MIN := -0x8000_0000

  /** The part of `parse_conversion` that settles the flags: c is the conversion as
      written, with the width that was given, which is negative only for `*'. */
  function SettleFlags(c: Conversion): Conversion {
    var c := if c.minus then c.(zero := false) else c;
    var c := if c.plus then c.(space := false) else c;
    if c.width < 0 then c.(width := if c.width == INT_MIN then INT_MIN else -c.width, minus := true) else c
  }

  /** Of the conversions that can be written, exactly those with the flag 0, without the
      flag -, and with a negative `*' width wider than the content exceed their field. */
  lemma WrittenLength(v: int, isSigned: bool, negative: bool, b: Base, c: Conversion)
    requires IsBase(b) && 0 <= v && INT_MIN <= c.width
    ensures var content := Content(v, isSigned, negative, b, SettleFlags(c));
      FillsField(v, isSigned, negative, b, SettleFlags(c)) <==>
      !(c.zero && !c.minus && INT_MIN < c.width < 0 && -c.width > content)
  {
    hide Body, Digits, FillsField, Content;
    ContentPositive(v, isSigned, negative, b, SettleFlags(c));
    RenderedLength(v, isSigned, negative, b, SettleFlags(c));
  }

  lemma ContentPositive(v: int, isSigned: bool, negative: bool, b: Base, c: Conversion)
    requires IsBase(b) && 0 <= v
    ensures Content(v, isSigned, negative, b, c) >= 0
  {}

  /** "%0*d" with width -5: 42 becomes "00042" and three blanks, 8 characters for a field of 5. */
  lemma ExceedsField()
    ensures var c := SettleFlags(Conversion(false, false, false, false, true, false, -5, -1));
      Rendered(42, true, false, BASE_D, c) == [ZERO, ZERO, ZERO, 52, 50, BLANK, BLANK, BLANK]
  {
    var c := SettleFlags(Conversion(false, false, false, false, true, false, -5, -1));
    assert c == Conversion(true, false, false, false, true, false, 5, -1);
    assert Digits(4, BASE_D, false, 1) == [52];
    assert Digits(42, BASE_D, false, 0) == [50, 52];
    assert Body(42, BASE_D, c) == [50, 52];
    assert Reversed([50, 52]) == [52, 50];
  }

  // ----- reading a conversion back -----

  /** What digits, most significant first, denote; separators do not count. */
  function Reading(s: seq<int>, b: Base): int {
    if s == [] then 0
    else if s[|s| - 1] == COMMA then Reading(s[..|s| - 1], b)
    else b.base * Reading(s[..|s| - 1], b) + CharDigit(s[|s| - 1])
  }

  function TrimLeft(s: seq<int>): seq<int> { if s != [] && s[0] == BLANK then TrimLeft(s[1..]) else s }

  function TrimRight(s: seq<int>): seq<int> { if s != [] && s[|s| - 1] == BLANK then TrimRight(s[..|s| - 1]) else s }

  datatype Number = Number(negative: bool, magnitude: int)

  /** Skips the 0x of base 16. */
  function SkipPrefix(s: seq<int>, b: Base): seq<int> {
    if b.x != 0 && |s| >= 2 && s[0] == ZERO && s[1] == b.x then s[2..] else s
  }

  /** Reads a number: blanks around it, a sign, a prefix, digits. */
  function ReadBack(s: seq<int>, b: Base): Number {
    var t := TrimRight(TrimLeft(s));
    if t != [] && (t[0] == MINUS || t[0] == PLUS)
    then Number(t[0] == MINUS, Reading(SkipPrefix(t[1..], b), b))
    else Number(false, Reading(SkipPrefix(t, b), b))
  }

  /** Digits and separators: no blank, no sign, no `x'. */
  predicate Numeral(s: seq<int>) {
    forall k :: 0 <= k < |s| ==> s[k] != BLANK && s[k] != MINUS && s[k] != PLUS && s[k] != 120 && s[k] != 88
  }

  lemma {:induction false} ReversedReading(s: seq<int>, b: Base)
    ensures Reading(Reversed(s), b) == Value(s, b)
  {
    hide CharDigit;
    if s != [] {
      ReversedReading(s[1..], b);
      ReadingLast(Reversed(s[1..]), s[0], b);
    }
  }

  lemma ReadingLast(s: seq<int>, ch: int, b: Base)
    ensures Reading(s + [ch], b) == if ch == COMMA then Reading(s, b) else b.base * Reading(s, b) + CharDigit(ch)
  {
    hide CharDigit;
    assert (s + [ch])[..|s|] == s;
  }

  lemma {:induction false} ReversedNumeral(s: seq<int>)
    requires Numeral(s)
    ensures Numeral(Reversed(s))
  {
    if s != [] { ReversedNumeral(s[1..]); }
  }

  lemma {:induction false} ZerosReading(n: int, s: seq<int>, b: Base)
    ensures Reading(Times(ZERO, n) + s, b) == Reading(s, b)
  {
    var t := Times(ZERO, n) + s;
    if s == [] {
      assert t == Times(ZERO, n);
      if n > 0 {
        assert t[..|t| - 1] == Times(ZERO, n - 1) + [];
        ZerosReading(n - 1, [], b);
      }
    } else {
      assert t[..|t| - 1] == Times(ZERO, n) + s[..|s| - 1];
      ZerosReading(n, s[..|s| - 1], b);
    }
  }

  lemma {:induction false} DigitsNumeral(v: int, b: Base, group: bool, cnt: nat)
    requires IsBase(b) && 0 <= v
    ensures Numeral(Digits(v, b, group, cnt))
    decreases v
  {
    hide Quot, Rem;
    if v > 0 {
      QuotRem(v, b);
      DigitsNumeral(Quot(v, b), b, group, cnt + 1);
    }
  }

  lemma BodyNumeral(v: int, b: Base, c: Conversion)
    requires IsBase(b) && 0 <= v
    ensures Numeral(Body(v, b, c)) && Value(Body(v, b, c), b) == v
  {
    hide Digits, Value, Times;
    var d := Digits(v, b, c.group, 0);
    DigitsNumeral(v, b, c.group, 0);
    DigitsValue(v, b, c.group, 0);
    var precision := if c.precision < 0 then 1 else if c.precision < BUF_SIZE - 1 then c.precision else BUF_SIZE - 1;
    ValueZeros(d, precision - |d|, b);
    ValueZeros(d + Times(ZERO, precision - |d|), 1, b);
    OneZero();
  }

  lemma OneZero()
    ensures Times(ZERO, 1) == [ZERO]
  {
    assert Times(ZERO, 1) == Times(ZERO, 0) + [ZERO];
  }

  lemma {:induction false} TrimLeftBlanks(n: int, s: seq<int>)
    ensures TrimLeft(Times(BLANK, n) + s) == TrimLeft(s)
  {
    if n <= 0 {
      assert Times(BLANK, n) + s == s;
    } else {
      assert Times(BLANK, n) + s == Times(BLANK, n - 1) + ([BLANK] + s);
      TrimLeftBlanks(n - 1, [BLANK] + s);
      assert ([BLANK] + s)[1..] == s;
    }
  }

  lemma {:induction false} TrimRightBlanks(s: seq<int>, n: int)
    ensures TrimRight(s + Times(BLANK, n)) == TrimRight(s)
  {
    if n <= 0 {
      assert s + Times(BLANK, n) == s;
    } else {
      var t := s + Times(BLANK, n);
      assert t[|t| - 1] == BLANK && t[..|t| - 1] == s + Times(BLANK, n - 1);
      TrimRightBlanks(s, n - 1);
    }
  }

  /** Trimming padding off text that neither begins nor ends with a blank. */
  lemma Trimmed(l: int, core: seq<int>, r: int)
    requires core != [] ==> core[0] != BLANK && core[|core| - 1] != BLANK
    ensures TrimRight(TrimLeft(Times(BLANK, l) + core + Times(BLANK, r))) == core
  {
    hide Times;
    var rest := core + Times(BLANK, r);
    assert Times(BLANK, l) + core + Times(BLANK, r) == Times(BLANK, l) + rest;
    TrimLeftBlanks(l, rest);
    if core == [] {
      assert rest == Times(BLANK, r) + [];
      TrimLeftBlanks(r, []);
    } else {
      assert rest[0] == core[0];
      TrimRightBlanks(core, r);
    }
  }

  /** What is left of the output when the blanks around it are gone. */
  function Core(v: int, isSigned: bool, negative: bool, b: Base, c: Conversion, zeros: int): seq<int>
    requires IsBase(b) && 0 <= v
  {
    PlainSign(isSigned, negative, c) + (Prefix(v, b, c) + (Times(ZERO, zeros) + Reversed(Body(v, b, c))))
  }

  /** The sign that is not a blank. */
  function PlainSign(isSigned: bool, negative: bool, c: Conversion): seq<int> {
    if isSigned && negative then [MINUS] else if isSigned && c.plus then [PLUS] else []
  }

  lemma LeftPart(cond: bool, pad: int, isSigned: bool, negative: bool, c: Conversion) returns (l: int)
    ensures DupIf(cond, BLANK, pad) + Sign(isSigned, negative, c) == Times(BLANK, l) + PlainSign(isSigned, negative, c)
  {
    var lead := if cond && pad > 0 then pad else 0;
    assert DupIf(cond, BLANK, pad) == Times(BLANK, lead) by {
      assert Times(BLANK, 0) == [];
      if pad <= 0 { assert Times(BLANK, pad) == []; }
    }
    l := if Sign(isSigned, negative, c) == [BLANK] then lead + 1 else lead;
    assert Times(BLANK, lead + 1) == Times(BLANK, lead) + [BLANK];
  }

  lemma DupIfTimes(cond: bool, ch: int, n: int) returns (m: int)
    ensures DupIf(cond, ch, n) == Times(ch, m)
  {
    m := if cond then n else 0;
  }

  lemma RenderedIsCore(v: int, isSigned: bool, negative: bool, b: Base, c: Conversion)
    returns (l: int, zeros: int, r: int)
    requires IsBase(b) && 0 <= v
    ensures Rendered(v, isSigned, negative, b, c) ==
      Times(BLANK, l) + Core(v, isSigned, negative, b, c, zeros) + Times(BLANK, r)
  {
    hide Body, Reversed, Prefix, Times, DupIf, Sign, PlainSign;
    var pad := c.width - |Body(v, b, c)| - |Prefix(v, b, c)| - |Sign(isSigned, negative, c)|;
    l := LeftPart(!c.minus && !c.zero, pad, isSigned, negative, c);
    zeros := DupIfTimes(c.zero, ZERO, pad);
    r := DupIfTimes(c.minus, BLANK, pad);
    Regrouped(DupIf(!c.minus && !c.zero, BLANK, pad), Sign(isSigned, negative, c), Prefix(v, b, c), Times(ZERO, zeros),
              Reversed(Body(v, b, c)), Times(BLANK, r), Times(BLANK, l), PlainSign(isSigned, negative, c));
  }

  lemma Regrouped(a: seq<int>, s: seq<int>, p: seq<int>, z: seq<int>, n: seq<int>, r: seq<int>, l: seq<int>,
                  t: seq<int>)
    requires a + s == l + t
    ensures a + s + p + z + n + r == l + (t + (p + (z + n))) + r
  {
    assert a + s + p + z + n + r == (l + t) + p + z + n + r;
  }

  lemma NumeralCore(v: int, b: Base, c: Conversion, zeros: int)
    requires IsBase(b) && 0 <= v
    ensures var n := Times(ZERO, zeros) + Reversed(Body(v, b, c)); Numeral(n) && Reading(n, b) == v
    ensures SkipPrefix(Prefix(v, b, c) + (Times(ZERO, zeros) + Reversed(Body(v, b, c))), b) ==
      Times(ZERO, zeros) + Reversed(Body(v, b, c))
  {
    hide Body, Reversed, Reading;
    BodyNumeral(v, b, c);
    ReversedReading(Body(v, b, c), b);
    ReversedNumeral(Body(v, b, c));
    ZerosReading(zeros, Reversed(Body(v, b, c)), b);
  }

  /** For every number, base and set of flags, reading the output back gives the sign and the number. */
  lemma RenderedReadsBack(v: int, isSigned: bool, negative: bool, b: Base, c: Conversion)
    requires IsBase(b) && 0 <= v
    ensures ReadBack(Rendered(v, isSigned, negative, b, c), b) == Number(isSigned && negative, v)
  {
    hide Body, Reversed, Reading, Times, Rendered, TrimLeft, TrimRight, SkipPrefix;
    var l, zeros, r := RenderedIsCore(v, isSigned, negative, b, c);
    NumeralCore(v, b, c, zeros);
    var core := Core(v, isSigned, negative, b, c, zeros);
    var n := Prefix(v, b, c) + (Times(ZERO, zeros) + Reversed(Body(v, b, c)));
    CoreEnds(Prefix(v, b, c), Times(ZERO, zeros) + Reversed(Body(v, b, c)));
    Trimmed(l, core, r);
    assert isSigned && (negative || c.plus) ==> core[1..] == n;
    assert !(isSigned && (negative || c.plus)) ==> core == n;
  }

  lemma CoreEnds(prefix: seq<int>, n: seq<int>)
    requires Numeral(n) && (prefix == [] || prefix == [ZERO, 120] || prefix == [ZERO, 88])
    ensures prefix + n != [] ==> (prefix + n)[0] !in {BLANK, MINUS, PLUS} && (prefix + n)[|prefix + n| - 1] != BLANK
  {}

  /** struct vsnprintf_aux: the first maxLength characters sent go into the buffer from `start` on. */
  class Sink {
    const buffer: array<int>
    const start: int
    const maxLength: int
    var p: int
    var length: int
    ghost var sent: seq<int>
    /** The buffer as it was at first, and still is outside what was written. */
    ghost const was: seq<int>

    ghost predicate Valid()
      reads this, buffer
    {
      && 0 <= start && 0 <= maxLength && start + maxLength <= buffer.Length && length == |sent|
      && p == start + (if length < maxLength then length else maxLength)
      && buffer[start..p] == sent[..p - start]
      && |was| == buffer.Length && forall k :: 0 <= k < |was| && !(start <= k < p) ==> buffer[k] == was[k]
    }

    constructor (b: array<int>, at: int, max: int)
      requires 0 <= at && 0 <= max && at + max <= b.Length
      ensures Valid() && buffer == b && start == at && maxLength == max && sent == [] && was == b[..]
    {
      buffer, start, maxLength, p, length, sent, was := b, at, max, at, 0, [], b[..];
    }

    /** `vsnprintf_helper` */
    method Output(ch: int)
      requires Valid()
      modifies this, buffer
      ensures Valid() && sent == old(sent) + [ch]
    {
      if length < maxLength {
        buffer[p] := ch;
        p := p + 1;
        assert buffer[start..p] == old(buffer[start..p]) + [ch];
      }
      length := length + 1;
      sent := sent + [ch];
      assert sent[..p - start] == if old(length) < maxLength then old(sent[..p - start]) + [ch]
        else old(sent)[..p - start];
    }

    /** `output_dup` */
    method OutputDup(ch: int, cnt: int)
      requires Valid()
      modifies this, buffer
      ensures Valid() && sent == old(sent) + Times(ch, cnt)
    {
      var n := 0;
      while n < cnt
        invariant 0 <= n && (n <= cnt || n == 0) && Valid() && sent == old(sent) + Times(ch, n)
      {
        Output(ch);
        n := n + 1;
      }
    }
  }

  /** The digit loop of format_integer; the buffer never overflows. */
  method FillDigits(v: int, b: Base, group: bool, buf: array<int>) returns (cp: int)
    requires IsBase(b) && 0 <= v <= UINTMAX_MAX && buf.Length == BUF_SIZE
    modifies buf
    ensures 0 <= cp <= 44 && buf[..cp] == Digits(v, b, group, 0)
  {
    hide Quot, Rem, DigitChar, Comma, Digits;
    Pow8Of22();
    DigitsLength(v, b, group, 0, 22);
    cp := 0;
    var value, digitCnt := v, 0;
    while value > 0
      invariant 0 <= value && 0 <= digitCnt && 0 <= cp <= BUF_SIZE && |Digits(v, b, group, 0)| <= 44
      invariant buf[..cp] + Digits(value, b, group, digitCnt) == Digits(v, b, group, 0)
      decreases value
    {
      DigitsStep(value, b, group, digitCnt, buf[..cp], v);
      ghost var before := buf[..cp];
      if Comma(b, group, digitCnt) != [] {
        buf[cp] := COMMA;
        cp := cp + 1;
      }
      buf[cp] := DigitChar(Rem(value, b), b);
      cp := cp + 1;
      assert buf[..cp] == before + Comma(b, group, digitCnt) + [DigitChar(Rem(value, b), b)];
      value := Quot(value, b);
      digitCnt := digitCnt + 1;
    }
    NoMoreDigits(value, b, group, digitCnt);
    assert buf[..cp] + [] == buf[..cp];
  }

  lemma NoMoreDigits(value: int, b: Base, group: bool, cnt: nat)
    requires IsBase(b) && value == 0
    ensures Digits(value, b, group, cnt) == []
  {}

  lemma DigitsStep(value: int, b: Base, group: bool, cnt: nat, done: seq<int>, v: int)
    requires IsBase(b) && 0 < value && 0 <= v && done + Digits(value, b, group, cnt) == Digits(v, b, group, 0)
    ensures 0 <= Quot(value, b) < value && (Comma(b, group, cnt) == [] || Comma(b, group, cnt) == [COMMA])
    ensures done + Comma(b, group, cnt) + [DigitChar(Rem(value, b), b)] + Digits(Quot(value, b), b, group, cnt + 1) ==
      Digits(v, b, group, 0)
    ensures |done| + |Comma(b, group, cnt)| + 1 <= |Digits(v, b, group, 0)|
  {
    QuotRem(value, b);
    hide Quot, Rem, DigitChar;
  }

  /** Zeros up to the precision, within the buffer. */
  method FillZeros(cp0: int, precision: int, buf: array<int>) returns (cp: int)
    requires 0 <= cp0 < BUF_SIZE == buf.Length
    modifies buf
    ensures cp0 <= cp < BUF_SIZE
    ensures buf[..cp] == old(buf[..cp0]) + Times(ZERO, (if precision < BUF_SIZE - 1 then precision
      else BUF_SIZE - 1) - cp0)
  {
    cp := cp0;
    while cp < precision && cp < BUF_SIZE - 1
      invariant cp0 <= cp < BUF_SIZE && (cp <= precision || cp == cp0) &&
        buf[..cp] == old(buf[..cp0]) + Times(ZERO, cp - cp0)
    {
      buf[cp] := ZERO;
      cp := cp + 1;
    }
  }

  /** The whole buffer, with the leading zero of "%#o". */
  method FillBody(v: int, b: Base, c: Conversion, buf: array<int>) returns (cp: int)
    requires IsBase(b) && 0 <= v <= UINTMAX_MAX && buf.Length == BUF_SIZE
    modifies buf
    ensures 0 <= cp <= BUF_SIZE && buf[..cp] == Body(v, b, c)
  {
    hide Digits, Times;
    cp := FillDigits(v, b, c.group, buf);
    cp := FillZeros(cp, if c.precision < 0 then 1 else c.precision, buf);
    if c.pound && b.base == 8 && (cp == 0 || buf[cp - 1] != ZERO) {
      buf[cp] := ZERO;
      cp := cp + 1;
    }
  }

  lemma {:induction false} ReversedLast(s: seq<int>, x: int)
    ensures Reversed(s + [x]) == [x] + Reversed(s)
  {
    if s != [] {
      assert (s + [x])[1..] == s[1..] + [x];
      ReversedLast(s[1..], x);
    }
  }

  /** The buffer is sent from its end. */
  method SendBuffer(buf: array<int>, cp: int, sink: Sink)
    requires 0 <= cp <= buf.Length && sink.Valid() && buf != sink.buffer
    modifies sink, sink.buffer
    ensures sink.Valid() && sink.sent == old(sink.sent) + Reversed(buf[..cp])
  {
    hide Reversed;
    var i := cp;
    ghost var whole := buf[..cp];
    while i > 0
      invariant 0 <= i <= cp && sink.Valid() && buf[..cp] == whole
      invariant sink.sent + Reversed(buf[..i]) == old(sink.sent) + Reversed(whole)
    {
      ReversedLast(buf[..i - 1], buf[i - 1]);
      assert buf[..i] == buf[..i - 1] + [buf[i - 1]];
      i := i - 1;
      sink.Output(buf[i]);
    }
    assert buf[..0] == [];
    assert Reversed([]) == [] by { ReversedEmpty(); }
  }

  lemma ReversedEmpty()
    ensures Reversed([]) == []
  {}

  function DupIf(cond: bool, ch: int, n: int): seq<int> { if cond then Times(ch, n) else [] }

  method SendDupIf(cond: bool, ch: int, n: int, sink: Sink)
    requires sink.Valid()
    modifies sink, sink.buffer
    ensures sink.Valid() && sink.sent == old(sink.sent) + DupIf(cond, ch, n)
  {
    hide Times, Sink.Valid;
    if cond { sink.OutputDup(ch, n); }
  }

  method SendSign(isSigned: bool, negative: bool, c: Conversion, sink: Sink)
    requires sink.Valid()
    modifies sink, sink.buffer
    ensures sink.Valid() && sink.sent == old(sink.sent) + Sign(isSigned, negative, c)
  {
    hide Sink.Valid;
    var sign := Sign(isSigned, negative, c);
    if sign != [] { sink.Output(sign[0]); }
  }

  method SendPrefix(v: int, b: Base, c: Conversion, sink: Sink)
    requires sink.Valid()
    modifies sink, sink.buffer
    ensures sink.Valid() && sink.sent == old(sink.sent) + Prefix(v, b, c)
  {
    hide Sink.Valid;
    if Prefix(v, b, c) != [] {
      sink.Output(ZERO);
      sink.Output(b.x);
    }
  }

  /** The parts of a conversion, sent one after the other. */
  lemma RenderedParts(s: seq<int>, v: int, isSigned: bool, negative: bool, b: Base, c: Conversion, pad: int)
    requires IsBase(b) && 0 <= v && pad == c.width - |Body(v, b, c)| - |Prefix(v, b, c)| - |Sign(isSigned, negative, c)|
    ensures s + DupIf(!c.minus && !c.zero, BLANK, pad) + Sign(isSigned, negative, c) + Prefix(v, b, c) +
      DupIf(c.zero, ZERO, pad)
            + Reversed(Body(v, b, c)) + DupIf(c.minus, BLANK, pad) == s + Rendered(v, isSigned, negative, b, c)
  {
    hide Digits, Times, Reversed, Body, Sign, Prefix, DupIf;
  }

  /** `format_integer` */
  method FormatInteger(v: int, isSigned: bool, negative: bool, b: Base, c: Conversion, sink: Sink)
    requires IsBase(b) && 0 <= v <= UINTMAX_MAX && sink.Valid()
    modifies sink, sink.buffer
    ensures sink.Valid() && sink.sent == old(sink.sent) + Rendered(v, isSigned, negative, b, c)
  {
    hide Digits, Times, Reversed, Body, Sign, Prefix, DupIf, Sink.Valid, Rendered;
    var buf := new int[BUF_SIZE];
    var cp := FillBody(v, b, c, buf);
    ghost var body := buf[..cp];
    var pad := c.width - cp - |Prefix(v, b, c)| - |Sign(isSigned, negative, c)|;
    RenderedParts(sink.sent, v, isSigned, negative, b, c, pad);
    SendDupIf(!c.minus && !c.zero, BLANK, pad, sink);
    SendSign(isSigned, negative, c, sink);
    SendPrefix(v, b, c, sink);
    SendDupIf(c.zero, ZERO, pad, sink);
    SendBuffer(buf, cp, sink);
    SendDupIf(c.minus, BLANK, pad, sink);
  }

  // ----- snprintf -----

  /** `vsnprintf` with one integer conversion: what fits, always terminated; the length counts what did not fit. */
  method Snprintf(buffer: array<int>, at: int, size: int, v: int, isSigned: bool, negative: bool, b: Base,
                  c: Conversion) returns (length: int)
    requires IsBase(b) && 0 <= v <= UINTMAX_MAX && 0 <= at && 0 <= size && at + size <= buffer.Length
    modifies buffer
    ensures length == |Rendered(v, isSigned, negative, b, c)|
    ensures buffer[..] ==
      if size > 0 then Put(old(buffer[..]), at, Terminated(Rendered(v, isSigned, negative, b, c), size))
      else old(buffer[..])
  {
    hide Rendered;
    var sink := new Sink(buffer, at, if size > 0 then size - 1 else 0);
    FormatInteger(v, isSigned, negative, b, c, sink);
    ghost var out := Rendered(v, isSigned, negative, b, c);
    assert sink.sent == out;
    if size > 0 { buffer[sink.p] := 0; }
    SnprintfIs(sink.was, buffer[..], at, size, out);
    length := sink.length;
  }

  lemma SnprintfIs(was: seq<int>, now: seq<int>, at: int, size: int, out: seq<int>)
    requires 0 <= at && 0 <= size && at + size <= |was| == |now|
    requires size > 0 ==> var n := if |out| < size then |out| else size - 1;
             now[at..at + n] == out[..n] && now[at + n] == 0 && forall k :: 0 <= k < |was| && !(at <= k <= at + n) ==>
               now[k] == was[k]
    requires size == 0 ==> now == was
    ensures now == if size > 0 then Put(was, at, Terminated(out, size)) else was
  {
    if size > 0 {
      var n := if |out| < size then |out| else size - 1;
      var t := Terminated(out, size);
      assert |t| == n + 1 && t[n] == 0;
      forall k | at <= k < at + n ensures now[k] == t[k - at] {
        assert now[at..at + n][k - at] == now[k];
      }
    }
  }

  // ----- octal fields -----

  predicate IsOctal(s: seq<int>) { forall k :: 0 <= k < |s| ==> ZERO <= s[k] <= ZERO + 7 }

  /** The value of octal digits, most significant first. */
  function OctalValue(s: seq<int>): int { if s == [] then 0 else 8 * OctalValue(s[..|s| - 1]) + s[|s| - 1] - ZERO }

  lemma {:induction false} ReversedOctal(s: seq<int>)
    requires IsOctal(s)
    ensures OctalValue(Reversed(s)) == Value(s, BASE_O) && IsOctal(Reversed(s))
  {
    if s != [] {
      ReversedOctal(s[1..]);
      var r := Reversed(s);
      assert r[..|r| - 1] == Reversed(s[1..]) && r[|r| - 1] == s[0];
    }
  }

  lemma {:induction false} LeadingZeros(n: int, s: seq<int>)
    ensures OctalValue(Times(ZERO, n) + s) == OctalValue(s)
  {
    if s == [] {
      assert Times(ZERO, n) + s == Times(ZERO, n);
      if n > 0 {
        assert Times(ZERO, n)[..n - 1] == Times(ZERO, n - 1) + [];
        LeadingZeros(n - 1, []);
      }
    } else {
      var t := Times(ZERO, n) + s;
      assert t[..|t| - 1] == Times(ZERO, n) + s[..|s| - 1];
      LeadingZeros(n, s[..|s| - 1]);
    }
  }

  lemma {:induction false} OctalDigits(v: int, cnt: nat)
    requires 0 <= v
    ensures IsOctal(Digits(v, BASE_O, false, cnt))
    decreases v
  {
    if v > 0 {
      QuotRem(v, BASE_O);
      OctalDigits(Quot(v, BASE_O), cnt + 1);
    }
  }

  /** The conversion "%0wo". */
  function OctalField(w: int): Conversion { Conversion(false, false, false, false, true, false, w, -1) }

  /** A number below 8^w is rendered by "%0wo" as exactly w octal digits that denote it. */
  lemma OctalRendered(v: int, w: nat)
    requires 0 < w && 0 <= v < Pow8(w)
    ensures var s := Rendered(v, false, false, BASE_O, OctalField(w)); |s| == w && IsOctal(s) && OctalValue(s) == v
  {
    hide Digits, Value, Pow8, Reversed, OctalValue;
    var d := Digits(v, BASE_O, false, 0);
    OctalDigits(v, 0);
    DigitsValue(v, BASE_O, false, 0);
    DigitsLength(v, BASE_O, false, 0, w);
    ValueZeros(d, 1 - |d|, BASE_O);
    var body := d + Times(ZERO, 1 - |d|);
    assert Body(v, BASE_O, OctalField(w)) == body;
    ReversedOctal(body);
    LeadingZeros(w - |body|, Reversed(body));
    assert Rendered(v, false, false, BASE_O, OctalField(w)) == Times(ZERO, w - |body|) + Reversed(body);
  }
}
