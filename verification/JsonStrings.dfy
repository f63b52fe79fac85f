/**
 Quoting a string for JSON and reading it back: the writer's escapes, the
 reader's scan for the closing quote, and the reader's unescaping.
 Plain char is signed, as on the x86 targets the client is built for.
 */
module JsonStrings {
  import opened Wrappers
  import opened Bytes
  import opened Utf8

  // ---------- writing ----------

  function HexDigit(n: nat): byte
    requires n < 16
  {
    if n < 10 then ZERO + n else LETTER_A + (n - 10)
  }

  /** toHex16Bit: four digits of the low sixteen bits. */
  function Hex16(x: nat): (s: bytes)
    ensures |s| == 4
  {
    var hi, lo := (x / 256) % 256, x % 256;
    [HexDigit(hi / 16), HexDigit(hi % 16), HexDigit(lo / 16), HexDigit(lo % 16)]
  }

  /** The second character of a two-character escape. */
  function ShortEscape(c: byte): Option<byte> {
    if c == QUOTE then Some(QUOTE)
    else if c == BACKSLASH then Some(BACKSLASH)
    else if c == BACKSPACE then Some(LETTER_B)
    else if c == FORM_FEED then Some(LETTER_F)
    else if c == LINE_FEED then Some(LETTER_N)
    else if c == RETURN then Some(LETTER_R)
    else if c == TAB then Some(LETTER_T)
    else None
  }

  function HighHalf(cp: nat): nat
    requires cp >= 0x10000
  {
    (cp - 0x10000) / 1024 + 0xD800
  }

  function LowHalf(cp: nat): nat
    requires cp >= 0x10000
  {
    (cp - 0x10000) % 1024 + 0xDC00
  }

  function EscapeCodepoint(cp: nat): bytes {
    if 0x20 <= cp < 0x80 then [cp]
    else if cp < 0x10000 then [BACKSLASH, LETTER_U] + Hex16(cp)
    else [BACKSLASH, LETTER_U] + Hex16(HighHalf(cp)) + ([BACKSLASH, LETTER_U] + Hex16(LowHalf(cp)))
  }

  function UnitLength(s: bytes): (n: nat)
    requires s != []
    ensures 1 <= n <= |s|
  {
    if ShortEscape(s[0]).Some? then 1 else Utf8ToCodepoint(s).length
  }

  function EscapeUnit(s: bytes): bytes
    requires s != []
  {
    if ShortEscape(s[0]).Some? then [BACKSLASH, ShortEscape(s[0]).value] else EscapeCodepoint(Utf8ToCodepoint(s).cp)
  }

  function Escape(s: bytes): bytes {
    if s == [] then [] else EscapeUnit(s) + Escape(s[UnitLength(s)..])
  }

  function Quote(s: bytes): bytes {
    [QUOTE] + Escape(s) + [QUOTE]
  }

  /** A byte as a signed char. */
  function Signed(c: byte): int {
    if c < 128 then c else c as int - 256
  }

  /** isAnyCharRequiredQuoting: with signed characters, every character does. */
  method IsAnyCharRequiredQuoting(s: bytes) returns (any: bool)
    ensures any <==> s != []
  {
    for cur := 0 to |s|
      invariant cur == 0
    {
      if s[cur] == BACKSLASH || s[cur] == QUOTE || Signed(s[cur]) < Signed(SPACE) || s[cur] < 0x80 {
        return true;
      }
    }
    return false;
  }

  lemma EscapeStep(done: bytes, rest: bytes, all: bytes)
    requires rest != [] && done + Escape(rest) == all
    ensures (done + EscapeUnit(rest)) + Escape(rest[UnitLength(rest)..]) == all
  {
  }

  /** valueToQuotedStringN. */
  method ValueToQuotedStringN(value: bytes) returns (result: bytes)
    ensures result == Quote(value)
  {
    var any := IsAnyCharRequiredQuoting(value);
    if !any {
      return [QUOTE] + value + [QUOTE];
    }
    result := [QUOTE];
    var c := 0;
    while c != |value|
      invariant 0 <= c <= |value|
      invariant result + Escape(value[c..]) == [QUOTE] + Escape(value)
      decreases |value| - c
    {
      ghost var rest := value[c..];
      EscapeStep(result, rest, [QUOTE] + Escape(value));
      if ShortEscape(value[c]).Some? {
        result := result + [BACKSLASH, ShortEscape(value[c]).value];
        c := c + 1;
      } else {
        var unit := Utf8ToCodepoint(value[c..]);
        c := c + unit.length;
        result := result + EscapeCodepoint(unit.cp);
      }
      assert value[c..] == rest[UnitLength(rest)..];
    }
    result := result + [QUOTE];
  }

  // ---------- reading ----------

  datatype Scan = Scan(pos: nat, ok: bool)

  /** readString, from just after the opening quote: past the closing quote, or to the end of the document. */
  function ScanString(doc: bytes, pos: nat): (r: Scan)
    requires pos <= |doc|
    ensures pos <= r.pos <= |doc|
    ensures r.ok ==> pos < r.pos && doc[r.pos - 1] == QUOTE
    decreases |doc| - pos
  {
    if pos == |doc| then Scan(pos, false)
    else if doc[pos] == QUOTE then Scan(pos + 1, true)
    else if doc[pos] == BACKSLASH && pos + 1 < |doc| then ScanString(doc, pos + 2)
    else ScanString(doc, pos + 1)
  }

  function HexValue(c: byte): Option<nat> {
    if IsDigit(c) then Some(c as int - ZERO as int)
    else if LETTER_A <= c <= LETTER_F then Some(c as int - LETTER_A as int + 10)
    else if CAPITAL_A <= c <= CAPITAL_F then Some(c as int - CAPITAL_A as int + 10)
    else None
  }

  /** decodeUnicodeEscapeSequence: four hexadecimal digits. */
  function ReadHex(t: bytes): (r: Option<nat>)
    ensures r.Some? ==> |t| >= 4 && r.value < 0x10000
  {
    if |t| < 4 then None
    else if HexValue(t[0]).None? || HexValue(t[1]).None? || HexValue(t[2]).None? || HexValue(t[3]).None? then None
    else Some(((HexValue(t[0]).value * 16 + HexValue(t[1]).value) * 16 + HexValue(t[2]).value) * 16 + HexValue(t[3]).value)
  }

  predicate IsHighSurrogate(u: nat) {
    0xD800 <= u <= 0xDBFF
  }

  function Combine(high: nat, low: nat): nat {
    0x10000 + (high % 1024) * 1024 + low % 1024
  }

  /** decodeUnicodeCodePoint, from just after \u: the code point and the characters used up. */
  function ReadCodePoint(t: bytes): (r: Option<Unit>)
    ensures r.Some? ==> 0 < r.value.length <= |t|
  {
    var first := ReadHex(t);
    if first.None? then None
    else if !IsHighSurrogate(first.value) then Some(Unit(first.value, 4))
    else if |t| < 10 || t[4] != BACKSLASH || t[5] != LETTER_U || ReadHex(t[6..]).None? then None
    else Some(Unit(Combine(first.value, ReadHex(t[6..]).value), 10))
  }

  function LongEscape(c: byte): Option<byte> {
    if c == QUOTE || c == SLASH || c == BACKSLASH then Some(c)
    else if c == LETTER_B then Some(BACKSPACE)
    else if c == LETTER_F then Some(FORM_FEED)
    else if c == LETTER_N then Some(LINE_FEED)
    else if c == LETTER_R then Some(RETURN)
    else if c == LETTER_T then Some(TAB)
    else None
  }

  function Prefixed(a: bytes, r: Option<bytes>): Option<bytes> {
    if r.None? then None else Some(a + r.value)
  }

  /** decodeString, on the text between the quotes. */
  function Unescape(t: bytes): Option<bytes> {
    if t == [] || t[0] == QUOTE then Some([])
    else if t[0] != BACKSLASH then Prefixed([t[0]], Unescape(t[1..]))
    else if |t| == 1 then None
    else if t[1] == LETTER_U then
      var r := ReadCodePoint(t[2..]);
      if r.None? then None
      else Prefixed(CodePointToUtf8(r.value.cp), Unescape(t[2 + r.value.length..]))
    else if LongEscape(t[1]).None? then None
    else Prefixed([LongEscape(t[1]).value], Unescape(t[2..]))
  }

  // ---------- what reading makes of what was written ----------

  function RecodePoint(cp: nat): bytes {
    if cp < 0x10000 then CodePointToUtf8(cp)
    else if IsHighSurrogate(HighHalf(cp) % 0x10000) then
      CodePointToUtf8(Combine(HighHalf(cp) % 0x10000, LowHalf(cp)))
    else CodePointToUtf8(HighHalf(cp) % 0x10000) + CodePointToUtf8(LowHalf(cp))
  }

  function RecodeUnit(s: bytes): bytes
    requires s != []
  {
    if ShortEscape(s[0]).Some? then [s[0]] else RecodePoint(Utf8ToCodepoint(s).cp)
  }

  /** The string that comes back after quoting and reading. */
  function Recode(s: bytes): bytes {
    if s == [] then [] else RecodeUnit(s) + Recode(s[UnitLength(s)..])
  }

  lemma HexDigitReads(n: nat)
    requires n < 16
    ensures HexValue(HexDigit(n)) == Some(n)
  {
  }

  lemma SixteenBits(x: nat)
    ensures ((((x / 256) % 256 / 16) * 16 + (x / 256) % 256 % 16) * 16 + x % 256 / 16) * 16 + x % 256 % 16 == x % 0x10000
  {
    var hi, lo := (x / 256) % 256, x % 256;
    assert hi / 16 * 16 + hi % 16 == hi && lo / 16 * 16 + lo % 16 == lo;
    TwoBytesOf(x);
  }

  lemma TwoBytesOf(x: nat)
    ensures (x / 256) % 256 * 256 + x % 256 == x % 0x10000
  {
    var q := x / 0x10000;
    assert x / 256 == q * 256 + (x % 0x10000) / 256;
  }

  lemma HexReadsBack(x: nat, rest: bytes)
    ensures ReadHex(Hex16(x) + rest) == Some(x % 0x10000)
  {
    var h := Hex16(x);
    var t := h + rest;
    assert t[0] == h[0] && t[1] == h[1] && t[2] == h[2] && t[3] == h[3];
    HexDigitReads((x / 256) % 256 / 16);
    HexDigitReads((x / 256) % 256 % 16);
    HexDigitReads(x % 256 / 16);
    HexDigitReads(x % 256 % 16);
    SixteenBits(x);
  }

  /** The code points the writer sees are never lone surrogates. */
  lemma NoSurrogate(s: bytes)
    requires s != []
    ensures !(0xD800 <= Utf8ToCodepoint(s).cp <= 0xDFFF)
    ensures s[0] < 0x80 ==> Utf8ToCodepoint(s).cp == s[0] as int
  {
  }

  lemma ShortReadsBack(c: byte, rest: bytes)
    requires ShortEscape(c).Some?
    ensures Unescape([BACKSLASH, ShortEscape(c).value] + rest) == Prefixed([c], Unescape(rest))
  {
    var t := [BACKSLASH, ShortEscape(c).value] + rest;
    assert t[2..] == rest;
  }

  /** A \u escape that is not the first half of a pair stands for itself. */
  lemma SingleReadsBack(x: nat, rest: bytes)
    requires !IsHighSurrogate(x % 0x10000)
    ensures Unescape([BACKSLASH, LETTER_U] + Hex16(x) + rest) == Prefixed(CodePointToUtf8(x % 0x10000), Unescape(rest))
  {
    var t := [BACKSLASH, LETTER_U] + Hex16(x) + rest;
    assert t[2..] == Hex16(x) + rest;
    HexReadsBack(x, rest);
    assert t[6..] == rest;
  }

  lemma PairReadsBack(x: nat, y: nat, rest: bytes)
    requires IsHighSurrogate(x % 0x10000)
    ensures Unescape([BACKSLASH, LETTER_U] + Hex16(x) + ([BACKSLASH, LETTER_U] + Hex16(y)) + rest)
            == Prefixed(CodePointToUtf8(Combine(x % 0x10000, y % 0x10000)), Unescape(rest))
  {
    var second := [BACKSLASH, LETTER_U] + Hex16(y);
    var t := [BACKSLASH, LETTER_U] + Hex16(x) + second + rest;
    assert t[2..] == Hex16(x) + (second + rest);
    HexReadsBack(x, second + rest);
    assert t[2..][6..] == Hex16(y) + rest;
    HexReadsBack(y, rest);
    assert t[2..][4] == BACKSLASH && t[2..][5] == LETTER_U;
    assert t[12..] == rest;
  }

  lemma PlainReadsBack(c: byte, rest: bytes)
    requires c != QUOTE && c != BACKSLASH
    ensures Unescape([c] + rest) == Prefixed([c], Unescape(rest))
  {
    assert ([c] + rest)[1..] == rest;
  }

  lemma LowHalfIsLow(cp: nat)
    requires cp >= 0x10000
    ensures 0xDC00 <= LowHalf(cp) <= 0xDFFF && LowHalf(cp) % 0x10000 == LowHalf(cp)
  {
  }

  lemma LonePairReadsBack(x: nat, y: nat, rest: bytes)
    requires !IsHighSurrogate(x % 0x10000) && !IsHighSurrogate(y % 0x10000)
    ensures Unescape([BACKSLASH, LETTER_U] + Hex16(x) + ([BACKSLASH, LETTER_U] + Hex16(y)) + rest)
            == Prefixed(CodePointToUtf8(x % 0x10000) + CodePointToUtf8(y % 0x10000), Unescape(rest))
  {
    var first, second := [BACKSLASH, LETTER_U] + Hex16(x), [BACKSLASH, LETTER_U] + Hex16(y);
    assert first + second + rest == first + (second + rest);
    SingleReadsBack(x, second + rest);
    SingleReadsBack(y, rest);
    PrefixedTwice(CodePointToUtf8(x % 0x10000), CodePointToUtf8(y % 0x10000), Unescape(rest));
  }

  /** Beyond U+10FFFF the first half is no high surrogate, or pairs up by accident. */
  lemma AstralReadsBack(cp: nat, rest: bytes)
    requires cp >= 0x10000
    ensures Unescape(EscapeCodepoint(cp) + rest) == Prefixed(RecodePoint(cp), Unescape(rest))
  {
    LowHalfIsLow(cp);
    if IsHighSurrogate(HighHalf(cp) % 0x10000) {
      PairReadsBack(HighHalf(cp), LowHalf(cp), rest);
    } else {
      LonePairReadsBack(HighHalf(cp), LowHalf(cp), rest);
    }
  }

  lemma PointReadsBack(cp: nat, rest: bytes)
    requires !(0xD800 <= cp <= 0xDFFF) && (0x20 <= cp < 0x80 ==> cp != QUOTE as int && cp != BACKSLASH as int)
    ensures Unescape(EscapeCodepoint(cp) + rest) == Prefixed(RecodePoint(cp), Unescape(rest))
  {
    if 0x20 <= cp < 0x80 {
      PlainReadsBack(cp, rest);
    } else if cp < 0x10000 {
      assert cp % 0x10000 == cp;
      SingleReadsBack(cp, rest);
    } else {
      AstralReadsBack(cp, rest);
    }
  }

  lemma PrefixedTwice(a: bytes, b: bytes, r: Option<bytes>)
    ensures Prefixed(a, Prefixed(b, r)) == Prefixed(a + b, r)
  {
    if r.Some? {
      assert a + (b + r.value) == (a + b) + r.value;
    }
  }

  lemma UnitReadsBack(s: bytes, rest: bytes)
    requires s != []
    ensures Unescape(EscapeUnit(s) + rest) == Prefixed(RecodeUnit(s), Unescape(rest))
  {
    if ShortEscape(s[0]).Some? {
      ShortReadsBack(s[0], rest);
    } else {
      NoSurrogate(s);
      if Utf8ToCodepoint(s).cp < 0x80 { AsciiOnlyFromAscii(s); }
      PointReadsBack(Utf8ToCodepoint(s).cp, rest);
    }
  }

  lemma AsciiOnlyFromAscii(s: bytes)
    requires s != [] && Utf8ToCodepoint(s).cp < 0x80
    ensures Utf8ToCodepoint(s).cp == s[0] as int
  {
  }

  /** Every quoted string can be read, whatever its bytes. */
  lemma {:induction false} UnescapeOfEscape(s: bytes)
    ensures Unescape(Escape(s)) == Some(Recode(s))
  {
    if s != [] {
      UnescapeOfEscape(s[UnitLength(s)..]);
      UnitReadsBack(s, Escape(s[UnitLength(s)..]));
    }
  }

  // ---------- exactly which strings survive ----------

  lemma SurrogateRanges(q: nat, r: nat)
    requires q < 1024 && r < 1024
    ensures (q + 0xD800) % 0x10000 == q + 0xD800 && (q + 0xD800) % 1024 == q && (r + 0xDC00) % 1024 == r
  {
  }

  lemma PairRestores(cp: nat)
    requires 0x10000 <= cp <= 0x10FFFF
    ensures IsHighSurrogate(HighHalf(cp) % 0x10000) && Combine(HighHalf(cp) % 0x10000, LowHalf(cp)) == cp
  {
    SurrogateRanges((cp - 0x10000) / 1024, (cp - 0x10000) % 1024);
  }

  lemma GoodFrontSurvives(s: bytes)
    requires GoodFront(s)
    ensures UnitLength(s) == CharLength(s) && RecodeUnit(s) == s[..CharLength(s)]
  {
    GoodUnit(s);
    if Scalar(s) >= 0x10000 {
      PairRestores(Scalar(s));
    }
  }

  lemma ReplacementBytes()
    ensures RecodePoint(REPLACEMENT) == [0xEF, 0xBF, 0xBD]
  {
  }

  lemma BadTwo(s: bytes)
    requires s != [] && 0x80 <= s[0] < 0xE0 && !GoodFront(s)
    ensures !(RecodeUnit(s) <= s)
  {
    ReplacementBytes();
    var cp := Utf8ToCodepoint(s).cp;
    if cp != REPLACEMENT {
      TwoBytes(cp, Low(s[0], 32), Low(s[1], 64));
    }
  }

  lemma BadThree(s: bytes)
    requires s != [] && 0xE0 <= s[0] < 0xF0 && !GoodFront(s)
    ensures !(RecodeUnit(s) <= s)
  {
    ReplacementBytes();
    var cp := Utf8ToCodepoint(s).cp;
    if |s| >= 3 && Low(s[0], 16) * 4096 + Low(s[1], 64) * 64 + Low(s[2], 64) == cp {
      if cp >= 0x800 {
        ThreeBytes(cp, Low(s[0], 16), Low(s[1], 64), Low(s[2], 64));
        if IsTail(s[1]) && IsTail(s[2]) { ThreeGood(s); }
      }
    }
  }

  /** Three bytes with proper tails that are neither overlong nor surrogates are well formed. */
  lemma ThreeGood(s: bytes)
    requires |s| >= 3 && 0xE0 <= s[0] < 0xF0 && IsTail(s[1]) && IsTail(s[2])
    requires var cp := Low(s[0], 16) * 4096 + Low(s[1], 64) * 64 + Low(s[2], 64); cp >= 0x800 && !(0xD800 <= cp <= 0xDFFF)
    ensures GoodFront(s)
  {
  }

  lemma FourGood(s: bytes)
    requires |s| >= 4 && s[0] == 0xF0 && IsTail(s[1]) && IsTail(s[2]) && IsTail(s[3])
    requires Low(s[1], 64) * 4096 + Low(s[2], 64) * 64 + Low(s[3], 64) >= 0x10000
    ensures GoodFront(s)
  {
  }

  lemma BadFourLow(s: bytes)
    requires s != [] && s[0] == 0xF0 && !GoodFront(s)
    ensures !(RecodeUnit(s) <= s)
  {
    ReplacementBytes();
    if |s| >= 4 {
      var cp := Low(s[1], 64) * 4096 + Low(s[2], 64) * 64 + Low(s[3], 64);
      if cp >= 0x10000 {
        assert Utf8ToCodepoint(s).cp == cp;
        PairRestores(cp);
        FourBytes(cp, Low(s[1], 64), Low(s[2], 64), Low(s[3], 64));
        if IsTail(s[1]) && IsTail(s[2]) && IsTail(s[3]) { FourGood(s); }
      }
    }
  }

  /** Where the misplaced lead bits of a four-byte character go. */
  lemma HighHalfOfLarge(k: nat, r: nat)
    requires 1 <= k <= 7 && r < 0x40000
    ensures var h := HighHalf(k * 0x1000000 + r) % 0x10000;
            && h == match k case 1 => 0x17C0 + r / 1024 case 2 => 0x57C0 + r / 1024 case 3 => 0x97C0 + r / 1024
                    case 4 => 0xD7C0 + r / 1024 case 5 => 0x17C0 + r / 1024 case 6 => 0x57C0 + r / 1024
                    case _ => 0x97C0 + r / 1024
  {
    assert (k * 0x1000000 + r - 0x10000) / 1024 == k * 16384 - 64 + r / 1024;
  }

  lemma BasicFirstByte(cp: nat)
    requires 0x800 <= cp <= 0xFFFF
    ensures CodePointToUtf8(cp)[0] == 0xE0 + cp / 4096
  {
  }

  lemma BadFourHigh(s: bytes)
    requires s != [] && 0xF1 <= s[0] < 0xF8
    ensures !(RecodeUnit(s) <= s)
  {
    ReplacementBytes();
    if |s| >= 4 {
      var k, r := Low(s[0], 8), Low(s[1], 64) * 4096 + Low(s[2], 64) * 64 + Low(s[3], 64);
      var h := HighHalf(k * 0x1000000 + r) % 0x10000;
      assert Utf8ToCodepoint(s).cp == k * 0x1000000 + r;
      HighHalfOfLarge(k, r);
      if IsHighSurrogate(h) {
        AccidentalPair(h, LowHalf(k * 0x1000000 + r));
      } else {
        BasicFirstByte(h);
      }
    }
  }

  /** The accidental surrogate pair of lead byte F4 reads as a character of lead byte F0. */
  lemma AccidentalPair(h: nat, low: nat)
    requires 0xD800 <= h < 0xD8C0
    ensures CodePointToUtf8(Combine(h, low)) != [] && CodePointToUtf8(Combine(h, low))[0] == 0xF0
  {
    assert h % 1024 < 0xC0;
    assert Combine(h, low) < 0x40000;
  }

  lemma BadFrontChanges(s: bytes)
    requires s != [] && !GoodFront(s)
    ensures !(RecodeUnit(s) <= s)
  {
    if s[0] < 0xE0 {
      BadTwo(s);
    } else if s[0] < 0xF0 {
      BadThree(s);
    } else if s[0] == 0xF0 {
      BadFourLow(s);
    } else if s[0] < 0xF8 {
      BadFourHigh(s);
    } else {
      ReplacementBytes();
    }
  }

  lemma SamePrefix(a: bytes, x: bytes, y: bytes)
    ensures a + x == a + y <==> x == y
  {
    assert (a + x)[|a|..] == x && (a + y)[|a|..] == y;
  }

  lemma RecodeStep(s: bytes, n: nat, front: bytes, rest: bytes)
    requires s != [] && UnitLength(s) == n <= |s| && RecodeUnit(s) == front && rest == s[n..]
    ensures Recode(s) == front + Recode(rest)
  {
  }

  lemma RepresentableStep(s: bytes, n: nat, rest: bytes)
    requires GoodFront(s) && CharLength(s) == n && rest == s[n..]
    ensures Representable(s) == Representable(rest)
  {
  }

  /** A good character at the front, and the rest. */
  lemma GoodFrontIsKept(s: bytes, c: bytes, good: bool) returns (front: bytes, rest: bytes, r: bytes)
    requires s != [] && GoodFront(s) && c == Recode(s) && good == Representable(s)
    ensures s == front + rest && |rest| < |s| && r == Recode(rest) && c == front + r && good == Representable(rest)
  {
    var n := CharLength(s);
    GoodFrontSurvives(s);
    front, rest := s[..n], s[n..];
    r := FrontIsKept(s, c, n, front, rest);
    RepresentableStep(s, n, rest);
  }

  lemma FrontIsKept(s: bytes, c: bytes, n: nat, front: bytes, rest: bytes) returns (r: bytes)
    requires s != [] && UnitLength(s) == n <= |s| && RecodeUnit(s) == front && rest == s[n..] && c == Recode(s)
    ensures r == Recode(rest) && c == front + r
  {
    r := Recode(rest);
    RecodeStep(s, n, front, rest);
  }

  lemma BadFrontIsLost(s: bytes)
    requires s != [] && !GoodFront(s)
    ensures Recode(s) != s && !Representable(s)
  {
    BadFrontChanges(s);
    assert RecodeUnit(s) <= Recode(s);
  }

  lemma {:induction false} RecodedIsSame(s: bytes, c: bytes, good: bool)
    requires c == Recode(s) && good == Representable(s)
    ensures c == s <==> good
    decreases |s|
  {
    if s != [] {
      if GoodFront(s) {
        var front, rest, r := GoodFrontIsKept(s, c, good);
        RecodedIsSame(rest, r, good);
        SamePrefix(front, r, rest);
      } else {
        BadFrontIsLost(s);
      }
    }
  }

  /** Quoting and reading restores a string exactly when it is well-formed UTF-8 up to U+3FFFF. */
  lemma RecodeIsIdentity(s: bytes)
    ensures Recode(s) == s <==> Representable(s)
  {
    RecodedIsSame(s, Recode(s), Representable(s));
  }

  // ---------- finding the closing quote ----------

  predicate Plain(c: byte) {
    c != QUOTE && c != BACKSLASH
  }

  lemma {:induction false} ScanPlain(doc: bytes, pos: nat, t: bytes)
    requires At(doc, pos, t) && forall c | c in t :: Plain(c)
    ensures ScanString(doc, pos) == ScanString(doc, pos + |t|)
    decreases |t|
  {
    if t != [] {
      AtSplit(doc, pos, [t[0]], t[1..]);
      assert [t[0]] + t[1..] == t;
      AtFirst(doc, pos, [t[0]]);
      assert t[0] in t;
      ScanPlain(doc, pos + 1, t[1..]);
    }
  }

  lemma ScanEscape(doc: bytes, pos: nat, c: byte, t: bytes)
    requires At(doc, pos, [BACKSLASH, c] + t) && forall d | d in t :: Plain(d)
    ensures ScanString(doc, pos) == ScanString(doc, pos + 2 + |t|)
  {
    AtSplit(doc, pos, [BACKSLASH, c], t);
    AtFirst(doc, pos, [BACKSLASH, c]);
    ScanPlain(doc, pos + 2, t);
  }

  lemma ScanPoint(doc: bytes, pos: nat, cp: nat)
    requires At(doc, pos, EscapeCodepoint(cp))
    requires 0x20 <= cp < 0x80 ==> cp != QUOTE as int && cp != BACKSLASH as int
    ensures ScanString(doc, pos) == ScanString(doc, pos + |EscapeCodepoint(cp)|)
  {
    if 0x20 <= cp < 0x80 {
      ScanPlain(doc, pos, [cp]);
    } else if cp < 0x10000 {
      ScanEscape(doc, pos, LETTER_U, Hex16(cp));
    } else {
      AtSplit(doc, pos, [BACKSLASH, LETTER_U] + Hex16(HighHalf(cp)), [BACKSLASH, LETTER_U] + Hex16(LowHalf(cp)));
      ScanEscape(doc, pos, LETTER_U, Hex16(HighHalf(cp)));
      ScanEscape(doc, pos + 6, LETTER_U, Hex16(LowHalf(cp)));
    }
  }

  lemma ScanUnit(doc: bytes, pos: nat, s: bytes)
    requires s != [] && At(doc, pos, EscapeUnit(s))
    ensures ScanString(doc, pos) == ScanString(doc, pos + |EscapeUnit(s)|)
  {
    if ShortEscape(s[0]).Some? {
      assert [BACKSLASH, ShortEscape(s[0]).value] + [] == EscapeUnit(s);
      ScanEscape(doc, pos, ShortEscape(s[0]).value, []);
    } else {
      if Utf8ToCodepoint(s).cp < 0x80 { AsciiOnlyFromAscii(s); }
      ScanPoint(doc, pos, Utf8ToCodepoint(s).cp);
    }
  }

  /** The scan for the closing quote passes over the text, wherever it stands. */
  ghost predicate Skipped(t: bytes) {
    forall doc: bytes, pos: nat {:trigger At(doc, pos, t)} ::
      At(doc, pos, t) ==> ScanString(doc, pos) == ScanString(doc, pos + |t|)
  }

  lemma SkippedBoth(a: bytes, b: bytes)
    requires Skipped(a) && Skipped(b)
    ensures Skipped(a + b)
  {
    forall doc: bytes, pos: nat | At(doc, pos, a + b)
      ensures ScanString(doc, pos) == ScanString(doc, pos + |a + b|)
    {
      AtSplit(doc, pos, a, b);
    }
  }

  lemma UnitIsSkipped(s: bytes)
    requires s != []
    ensures Skipped(EscapeUnit(s))
  {
    forall doc: bytes, pos: nat | At(doc, pos, EscapeUnit(s))
      ensures ScanString(doc, pos) == ScanString(doc, pos + |EscapeUnit(s)|)
    {
      ScanUnit(doc, pos, s);
    }
  }

  lemma {:induction false} EscapedIsSkipped(s: bytes)
    ensures Skipped(Escape(s))
  {
    if s != [] {
      UnitIsSkipped(s);
      EscapedIsSkipped(s[UnitLength(s)..]);
      SkippedBoth(EscapeUnit(s), Escape(s[UnitLength(s)..]));
    }
  }

  /** The string token that begins here is the whole quoted text, and reads as the string. */
  ghost predicate ReadsAs(doc: bytes, pos: nat, quoted: bytes, s: bytes) {
    var end := pos + |quoted|;
    && pos + 2 <= end <= |doc| && doc[pos] == QUOTE && ScanString(doc, pos + 1) == Scan(end, true)
    && Unescape(doc[pos + 1..end - 1]) == Some(s)
  }

  /** A quoted text, taken apart. */
  lemma QuotesSplit(doc: bytes, pos: nat, e: bytes)
    requires At(doc, pos, [QUOTE] + e + [QUOTE])
    ensures var end := pos + |e| + 2;
            && end <= |doc| && doc[pos] == QUOTE && doc[end - 1] == QUOTE
            && At(doc, pos + 1, e) && doc[pos + 1..end - 1] == e
  {
    AtSplit(doc, pos, [QUOTE] + e, [QUOTE]);
    AtSplit(doc, pos, [QUOTE], e);
    AtFirst(doc, pos, [QUOTE]);
    AtFirst(doc, pos + 1 + |e|, [QUOTE]);
    AtSlice(doc, pos + 1, e);
  }

  lemma SkippedInQuotes(doc: bytes, pos: nat, e: bytes, s: bytes, quoted: bytes)
    requires At(doc, pos, quoted) && quoted == [QUOTE] + e + [QUOTE] && Skipped(e) && Unescape(e) == Some(s)
    ensures ReadsAs(doc, pos, quoted, s)
  {
    var end := pos + |e| + 2;
    QuotesSplit(doc, pos, e);
    QuotedEnds(doc, pos, e, end);
    ReadsAsInner(doc, pos, quoted, s, e, end);
  }

  lemma ReadsAsInner(doc: bytes, pos: nat, quoted: bytes, s: bytes, e: bytes, end: nat)
    requires end == pos + |quoted| && pos + 2 <= end <= |doc| && doc[pos] == QUOTE
    requires doc[pos + 1..end - 1] == e && Unescape(e) == Some(s) && ScanString(doc, pos + 1) == Scan(end, true)
    ensures ReadsAs(doc, pos, quoted, s)
  {
  }

  lemma QuotedEnds(doc: bytes, pos: nat, e: bytes, end: nat)
    requires end == pos + |e| + 2 && end <= |doc| && doc[end - 1] == QUOTE
    requires At(doc, pos + 1, e) && Skipped(e)
    ensures ScanString(doc, pos + 1) == Scan(end, true)
  {
    assert ScanString(doc, pos + 1) == ScanString(doc, pos + 1 + |e|);
  }

  /** The string codec: the scan stops exactly behind the closing quote, and what is between the quotes makes sense. */
  lemma QuotedReadsBack(doc: bytes, pos: nat, s: bytes)
    requires At(doc, pos, Quote(s))
    ensures ReadsAs(doc, pos, Quote(s), Recode(s))
  {
    EscapedIsSkipped(s);
    UnescapeOfEscape(s);
    SkippedInQuotes(doc, pos, Escape(s), Recode(s), Quote(s));
  }
}
