/**
 UTF-8, twice: the two conversions of the JSON code with all their lenience,
 and the encoding as RFC 3629 defines it.
 */
module Utf8 {
  import opened Bytes

  const REPLACEMENT: nat := 0xFFFD

  // ---------- the code ----------

  /** codePointToUTF8; nothing at all beyond U+10FFFF. */
  function CodePointToUtf8(cp: nat): (s: bytes)
    ensures |s| <= 4
  {
    if cp <= 0x7F then [cp]
    else if cp <= 0x7FF then [0xC0 + (cp / 64) % 32, 0x80 + cp % 64]
    else if cp <= 0xFFFF then [0xE0 + (cp / 4096) % 16, 0x80 + (cp / 64) % 64, 0x80 + cp % 64]
    else if cp <= 0x10FFFF then
      [0xF0 + (cp / 262144) % 8, 0x80 + (cp / 4096) % 64, 0x80 + (cp / 64) % 64, 0x80 + cp % 64]
    else []
  }

  /** The low bits of a byte, as an unsigned integer: b & (m - 1) for a power of two m. */
  function Low(b: byte, m: nat): nat
    requires m > 0
  {
    (b as int) % m
  }

  datatype Unit = Unit(cp: nat, length: nat)

  /** utf8ToCodepoint on the bytes still to come: the code point and the bytes used up. */
  function Utf8ToCodepoint(s: bytes): (u: Unit)
    requires s != []
    ensures 1 <= u.length <= |s|
  {
    if s[0] < 0x80 then Unit(s[0], 1)
    else if s[0] < 0xE0 then
      if |s| < 2 then Unit(REPLACEMENT, 1)
      else
        var calculated := Low(s[0], 32) * 64 + Low(s[1], 64);
        Unit(if calculated < 0x80 then REPLACEMENT else calculated, 2)
    else if s[0] < 0xF0 then
      if |s| < 3 then Unit(REPLACEMENT, 1)
      else
        var calculated := Low(s[0], 16) * 4096 + Low(s[1], 64) * 64 + Low(s[2], 64);
        Unit(if 0xD800 <= calculated <= 0xDFFF || calculated < 0x800 then REPLACEMENT else calculated, 3)
    else if s[0] < 0xF8 then
      if |s| < 4 then Unit(REPLACEMENT, 1)
      else
        var calculated := Low(s[0], 8) * 0x1000000 + Low(s[1], 64) * 4096 + Low(s[2], 64) * 64 + Low(s[3], 64);
        Unit(if calculated < 0x10000 then REPLACEMENT else calculated, 4)
    else Unit(REPLACEMENT, 1)
  }

  // ---------- RFC 3629, section 4 ----------

  predicate IsTail(b: byte) {
    0x80 <= b <= 0xBF
  }

  /** The length of the well-formed character at the front, 0 if there is none. */
  function CharLength(s: bytes): (n: nat)
    ensures n <= |s|
  {
    if |s| >= 1 && s[0] <= 0x7F then 1
    else if |s| >= 2 && 0xC2 <= s[0] <= 0xDF && IsTail(s[1]) then 2
    else if |s| >= 3 && IsTail(s[2])
            && ((s[0] == 0xE0 && 0xA0 <= s[1] <= 0xBF) || (0xE1 <= s[0] <= 0xEC && IsTail(s[1]))
                || (s[0] == 0xED && 0x80 <= s[1] <= 0x9F) || (0xEE <= s[0] <= 0xEF && IsTail(s[1]))) then 3
    else if |s| >= 4 && IsTail(s[2]) && IsTail(s[3])
            && ((s[0] == 0xF0 && 0x90 <= s[1] <= 0xBF) || (0xF1 <= s[0] <= 0xF3 && IsTail(s[1]))
                || (s[0] == 0xF4 && 0x80 <= s[1] <= 0x8F)) then 4
    else 0
  }

  /** Six more bits from a tail byte. */
  function Append(high: nat, tail: byte): nat
    requires IsTail(tail)
  {
    high * 64 + (tail as int - 0x80)
  }

  /** The scalar value of that character (section 3). */
  function Scalar(s: bytes): nat
    requires CharLength(s) > 0
  {
    match CharLength(s)
    case 1 => s[0]
    case 2 => Append(s[0] - 0xC0, s[1])
    case 3 => Append(Append(s[0] - 0xE0, s[1]), s[2])
    case _ => Append(Append(Append(s[0] - 0xF0, s[1]), s[2]), s[3])
  }

  /** Well-formed UTF-8 all of whose characters are at most U+3FFFF. */
  predicate Representable(s: bytes) {
    s == [] || (CharLength(s) > 0 && Scalar(s) <= 0x3FFFF && Representable(s[CharLength(s)..]))
  }

  // ---------- how they relate ----------

  /** The character at the front is well formed and at most U+3FFFF. */
  predicate GoodFront(s: bytes) {
    CharLength(s) > 0 && Scalar(s) <= 0x3FFFF
  }

  lemma TailBits(tail: byte)
    requires IsTail(tail)
    ensures Low(tail, 64) == tail as int - 0x80
  {
  }

  lemma TwoBytes(cp: nat, x: nat, y: nat)
    requires 2 <= x < 32 && y < 64 && cp == x * 64 + y
    ensures CodePointToUtf8(cp) == [0xC0 + x, 0x80 + y]
  {
  }

  lemma ThreeBytes(cp: nat, x: nat, y: nat, z: nat)
    requires x < 16 && y < 64 && z < 64 && cp == x * 4096 + y * 64 + z && cp >= 0x800
    ensures CodePointToUtf8(cp) == [0xE0 + x, 0x80 + y, 0x80 + z]
  {
    assert cp / 4096 == x && cp / 64 == x * 64 + y && cp % 64 == z;
  }

  /** Neither overlong nor a surrogate. */
  lemma ThreeRange(x: nat, y: nat, z: nat)
    requires x < 16 && y < 64 && z < 64 && (x == 0 ==> y >= 32) && (x == 13 ==> y < 32)
    ensures var cp := x * 4096 + y * 64 + z; cp >= 0x800 && !(0xD800 <= cp <= 0xDFFF)
  {
  }

  lemma FourBytes(cp: nat, x: nat, y: nat, z: nat)
    requires x < 64 && y < 64 && z < 64 && cp == x * 4096 + y * 64 + z && cp >= 0x10000
    ensures CodePointToUtf8(cp) == [0xF0, 0x80 + x, 0x80 + y, 0x80 + z]
  {
    AnyFourBytes(cp, 0, x, y, z);
  }

  /** On such characters the code reads the scalar value and writes the same bytes. */
  lemma GoodUnit(s: bytes)
    requires GoodFront(s)
    ensures Utf8ToCodepoint(s) == Unit(Scalar(s), CharLength(s))
    ensures CodePointToUtf8(Scalar(s)) == s[..CharLength(s)]
    ensures !(0xD800 <= Scalar(s) <= 0xDFFF)
  {
    match CharLength(s)
    case 1 =>
    case 2 => GoodTwo(s);
    case 3 => GoodThree(s);
    case _ => GoodFour(s);
  }

  lemma GoodTwo(s: bytes)
    requires CharLength(s) == 2
    ensures Utf8ToCodepoint(s) == Unit(Scalar(s), 2)
    ensures CodePointToUtf8(Scalar(s)) == s[..2] && Scalar(s) <= 0x7FF
  {
    TailBits(s[1]);
    TwoBytes(Scalar(s), s[0] - 0xC0, s[1] - 0x80);
  }

  lemma GoodThree(s: bytes)
    requires CharLength(s) == 3
    ensures Utf8ToCodepoint(s) == Unit(Scalar(s), 3)
    ensures CodePointToUtf8(Scalar(s)) == s[..3] && !(0xD800 <= Scalar(s) <= 0xDFFF)
  {
    ThreeParts(s);
    ThreeBytes(Scalar(s), s[0] as int - 0xE0, s[1] as int - 0x80, s[2] as int - 0x80);
  }

  lemma ThreeParts(s: bytes)
    requires CharLength(s) == 3
    ensures var x, y, z := s[0] as int - 0xE0, s[1] as int - 0x80, s[2] as int - 0x80;
            && 0 <= x < 16 && 0 <= y < 64 && 0 <= z < 64 && Scalar(s) == x * 4096 + y * 64 + z
            && Scalar(s) >= 0x800 && !(0xD800 <= Scalar(s) <= 0xDFFF)
    ensures Utf8ToCodepoint(s) == Unit(Scalar(s), 3)
  {
    TailBits(s[1]);
    TailBits(s[2]);
    ThreeRange(s[0] as int - 0xE0, s[1] as int - 0x80, s[2] as int - 0x80);
  }

  lemma GoodFour(s: bytes)
    requires CharLength(s) == 4 && Scalar(s) <= 0x3FFFF
    ensures Utf8ToCodepoint(s) == Unit(Scalar(s), 4)
    ensures CodePointToUtf8(Scalar(s)) == s[..4] && Scalar(s) >= 0x10000
  {
    TailBits(s[1]);
    TailBits(s[2]);
    TailBits(s[3]);
    assert s[0] == 0xF0;
    FourBytes(Scalar(s), s[1] - 0x80, s[2] - 0x80, s[3] - 0x80);
  }

  // ---------- every character ----------

  /** The string is the encoding of a code point. */
  predicate IsEncoding(cp: nat, s: bytes) {
    s != [] && CharLength(s) == |s| && Scalar(s) == cp
  }

  predicate IsSurrogate(cp: nat) {
    0xD800 <= cp <= 0xDFFF
  }

  /** Four digits to the base 64, the first of them small. */
  lemma FourDigits(cp: nat, w: nat, x: nat, y: nat, z: nat)
    requires w <= 4 && x < 64 && y < 64 && z < 64 && cp == w * 262144 + x * 4096 + y * 64 + z
    ensures cp / 262144 == w && cp / 4096 % 64 == x && cp / 64 % 64 == y && cp % 64 == z
  {
    assert cp / 4096 == w * 64 + x;
    assert cp / 64 == (w * 64 + x) * 64 + y;
  }

  lemma AnyFourBytes(cp: nat, w: nat, x: nat, y: nat, z: nat)
    requires w <= 4 && x < 64 && y < 64 && z < 64 && cp == w * 262144 + x * 4096 + y * 64 + z
    requires 0x10000 <= cp <= 0x10FFFF
    ensures CodePointToUtf8(cp) == [0xF0 + w, 0x80 + x, 0x80 + y, 0x80 + z]
  {
    FourDigits(cp, w, x, y, z);
  }

  lemma ToFourDigits(cp: nat) returns (w: nat, x: nat, y: nat, z: nat)
    requires cp <= 0x10FFFF
    ensures w <= 4 && x < 64 && y < 64 && z < 64 && cp == w * 262144 + x * 4096 + y * 64 + z
  {
    var high := cp / 4096;
    w, x := high / 64, high % 64;
    y, z := cp % 4096 / 64, cp % 64;
    assert cp % 4096 == y * 64 + z;
  }

  lemma FourBytesEncode(cp: nat, w: nat, x: nat, y: nat, z: nat)
    requires w <= 4 && x < 64 && y < 64 && z < 64 && cp == w * 262144 + x * 4096 + y * 64 + z
    requires 0x10000 <= cp <= 0x10FFFF
    ensures IsEncoding(cp, [0xF0 + w, 0x80 + x, 0x80 + y, 0x80 + z])
  {
  }

  /** Where four bytes are well formed the code point is in range. */
  lemma FourParts(s: bytes)
    requires CharLength(s) == 4
    ensures var w, x, y, z := s[0] as int - 0xF0, s[1] as int - 0x80, s[2] as int - 0x80, s[3] as int - 0x80;
            && 0 <= w <= 4 && 0 <= x < 64 && 0 <= y < 64 && 0 <= z < 64
            && Scalar(s) == w * 262144 + x * 4096 + y * 64 + z && 0x10000 <= Scalar(s) <= 0x10FFFF
  {
  }

  lemma FourIsWritten(s: bytes)
    requires CharLength(s) == |s| == 4
    ensures CodePointToUtf8(Scalar(s)) == s && 0x10000 <= Scalar(s) <= 0x10FFFF
  {
    FourParts(s);
    AnyFourBytes(Scalar(s), s[0] - 0xF0, s[1] - 0x80, s[2] - 0x80, s[3] - 0x80);
  }

  lemma CharIsWritten(s: bytes)
    requires CharLength(s) == |s| && s != []
    ensures CodePointToUtf8(Scalar(s)) == s && Scalar(s) <= 0x10FFFF && !IsSurrogate(Scalar(s))
  {
    match CharLength(s)
    case 1 =>
    case 2 => GoodTwo(s);
    case 3 => GoodThree(s);
    case _ => FourIsWritten(s);
  }

  lemma SmallWritten(cp: nat)
    requires cp <= 0x7FF
    ensures IsEncoding(cp, CodePointToUtf8(cp))
  {
    if cp >= 0x80 { TwoBytes(cp, cp / 64, cp % 64); }
  }

  lemma BasicWritten(cp: nat)
    requires 0x800 <= cp <= 0xFFFF && !IsSurrogate(cp)
    ensures IsEncoding(cp, CodePointToUtf8(cp))
  {
    var x, y, z := cp / 4096, cp / 64 % 64, cp % 64;
    assert cp == x * 4096 + y * 64 + z;
    ThreeBytes(cp, x, y, z);
  }

  lemma AstralWritten(cp: nat)
    requires 0x10000 <= cp <= 0x10FFFF
    ensures IsEncoding(cp, CodePointToUtf8(cp))
  {
    var w, x, y, z := ToFourDigits(cp);
    AnyFourBytes(cp, w, x, y, z);
    FourBytesEncode(cp, w, x, y, z);
  }

  /** Every scalar value of Unicode is written as its one encoding. */
  lemma EncodingIs(cp: nat, s: bytes)
    requires cp <= 0x10FFFF && !IsSurrogate(cp)
    ensures IsEncoding(cp, s) <==> s == CodePointToUtf8(cp)
  {
    if IsEncoding(cp, s) { CharIsWritten(s); }
    if cp <= 0x7FF {
      SmallWritten(cp);
    } else if cp <= 0xFFFF {
      BasicWritten(cp);
    } else {
      AstralWritten(cp);
    }
  }

  // ---------- ill-formed strings ----------

  /** A byte that cannot begin a character, or has too few behind it, is read as U+FFFD, and it alone is used up. */
  lemma LoneByteIsReplaced(s: bytes)
    requires s != [] && 0x80 <= s[0]
    requires s[0] >= 0xF8 || |s| < if s[0] < 0xE0 then 2 else if s[0] < 0xF0 then 3 else 4
    ensures Utf8ToCodepoint(s) == Unit(REPLACEMENT, 1)
  {
  }

  predicate Tails(s: bytes, n: nat) {
    |s| >= n && forall i | 1 <= i < n :: IsTail(s[i])
  }

  /** An encoding longer than need be, or of a surrogate, is read as U+FFFD, and all of it is used up. */
  lemma OverlongIsReplaced(s: bytes)
    requires s != []
    ensures Tails(s, 2) && (s[0] == 0xC0 || s[0] == 0xC1) ==> Utf8ToCodepoint(s) == Unit(REPLACEMENT, 2)
    ensures Tails(s, 3) && s[0] == 0xE0 && s[1] < 0xA0 ==> Utf8ToCodepoint(s) == Unit(REPLACEMENT, 3)
    ensures Tails(s, 3) && s[0] == 0xED && s[1] >= 0xA0 ==> Utf8ToCodepoint(s) == Unit(REPLACEMENT, 3)
    ensures Tails(s, 4) && s[0] == 0xF0 && s[1] < 0x90 ==> Utf8ToCodepoint(s) == Unit(REPLACEMENT, 4)
  {
    if Tails(s, 2) { TailBits(s[1]); }
    if Tails(s, 3) { TailBits(s[2]); }
    if Tails(s, 4) { TailBits(s[3]); }
  }
}
