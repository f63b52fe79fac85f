/**
 The strings of RFC 8259, section 7, piece by piece, and what each piece denotes:
 characters that stand for themselves, the eight short escapes, four hexadecimal
 digits of either case, and surrogate pairs.
 */
module JsonEscapes {
  import opened Wrappers
  import opened Bytes
  import opened Utf8
  import opened JsonStrings
  import opened JsonValue
  import opened JsonLexer
  import opened JsonGrammar
  import opened JsonTexts

  // ---------- the pieces ----------

  datatype Piece = Plain(c: byte) | Short(name: byte) | Unit16(digits: bytes) | Pair(high: bytes, low: bytes)

  predicate IsHex(c: byte) {
    0x30 <= c <= 0x39 || 0x41 <= c <= 0x46 || 0x61 <= c <= 0x66
  }

  /** The value of a hexadecimal digit of either case. */
  function Nibble(c: byte): nat
    requires IsHex(c)
  {
    if c <= 0x39 then c - 0x30 else if c <= 0x46 then c - 0x41 + 10 else c - 0x61 + 10
  }

  predicate IsFourHex(d: bytes) {
    |d| == 4 && IsHex(d[0]) && IsHex(d[1]) && IsHex(d[2]) && IsHex(d[3])
  }

  function FourHex(d: bytes): nat
    requires IsFourHex(d)
  {
    4096 * Nibble(d[0]) + 256 * Nibble(d[1]) + 16 * Nibble(d[2]) + Nibble(d[3])
  }

  predicate Proper(p: Piece) {
    match p
    case Plain(c) => c != 0x22 && c != 0x5C
    case Short(name) => name in {0x22, 0x5C, 0x2F, 0x62, 0x66, 0x6E, 0x72, 0x74}
    case Unit16(d) => IsFourHex(d) && !IsSurrogate(FourHex(d))
    case Pair(h, l) => IsFourHex(h) && IsFourHex(l) && 0xD800 <= FourHex(h) <= 0xDBFF && 0xDC00 <= FourHex(l) <= 0xDFFF
  }

  function PieceText(p: Piece): bytes {
    match p
    case Plain(c) => [c]
    case Short(name) => [0x5C, name]
    case Unit16(d) => [0x5C, 0x75] + d
    case Pair(h, l) => ([0x5C, 0x75] + h) + ([0x5C, 0x75] + l)
  }

  /** The code point a surrogate pair stands for. */
  function PairPoint(h: bytes, l: bytes): nat
    requires Proper(Pair(h, l))
  {
    0x10000 + (FourHex(h) - 0xD800) * 0x400 + (FourHex(l) - 0xDC00)
  }

  /** What a piece stands for. */
  predicate Denotes(p: Piece, s: bytes)
    requires Proper(p)
  {
    match p
    case Plain(c) => s == [c]
    case Short(name) =>
      s == [if name == 0x62 then 0x08 else if name == 0x66 then 0x0C else if name == 0x6E then 0x0A
            else if name == 0x72 then 0x0D else if name == 0x74 then 0x09 else name]
    case Unit16(d) => IsEncoding(FourHex(d), s)
    case Pair(h, l) => IsEncoding(PairPoint(h, l), s)
  }

  function PieceTexts(ps: seq<Piece>): bytes {
    if ps == [] then [] else PieceText(ps[0]) + PieceTexts(ps[1..])
  }

  // ---------- reading a piece ----------

  lemma HexIsRead(c: byte)
    requires IsHex(c)
    ensures HexValue(c) == Some(Nibble(c))
  {
  }

  lemma FourHexIsRead(t: bytes, d: bytes)
    requires IsFourHex(d) && d <= t
    ensures ReadHex(t) == Some(FourHex(d))
  {
    assert t[0] == d[0] && t[1] == d[1] && t[2] == d[2] && t[3] == d[3];
    HexIsRead(d[0]);
    HexIsRead(d[1]);
    HexIsRead(d[2]);
    HexIsRead(d[3]);
  }

  lemma UnitIsRead(d: bytes, rest: bytes)
    requires IsFourHex(d) && !IsSurrogate(FourHex(d))
    ensures Unescape([BACKSLASH, LETTER_U] + d + rest) == Prefixed(CodePointToUtf8(FourHex(d)), Unescape(rest))
  {
    var t := [BACKSLASH, LETTER_U] + d + rest;
    assert t[2..] == d + rest && t[6..] == rest;
    FourHexIsRead(d + rest, d);
  }

  /** The two halves of a pair, put together. */
  lemma HalvesCombine(high: nat, low: nat)
    requires 0xD800 <= high <= 0xDBFF && 0xDC00 <= low <= 0xDFFF
    ensures Combine(high, low) == 0x10000 + (high - 0xD800) * 0x400 + (low - 0xDC00)
  {
  }

  lemma PairPointIsRead(h: bytes, l: bytes, rest: bytes)
    requires Proper(Pair(h, l))
    ensures ReadCodePoint(h + ([BACKSLASH, LETTER_U] + l) + rest)
            == Some(Unit(PairPoint(h, l), 10))
  {
    var t := h + ([BACKSLASH, LETTER_U] + l) + rest;
    FourHexIsRead(t, h);
    assert t[4] == BACKSLASH && t[5] == LETTER_U && t[6..] == l + rest;
    FourHexIsRead(t[6..], l);
    HalvesCombine(FourHex(h), FourHex(l));
  }

  lemma PairIsRead(h: bytes, l: bytes, rest: bytes)
    requires Proper(Pair(h, l))
    ensures Unescape(PieceText(Pair(h, l)) + rest)
            == Prefixed(CodePointToUtf8(PairPoint(h, l)), Unescape(rest))
  {
    var t := PieceText(Pair(h, l)) + rest;
    assert t[2..] == h + ([BACKSLASH, LETTER_U] + l) + rest && t[12..] == rest;
    PairPointIsRead(h, l, rest);
  }

  lemma ShortIsRead(name: byte, rest: bytes) returns (s: bytes)
    requires Proper(Short(name))
    ensures Denotes(Short(name), s) && Unescape([BACKSLASH, name] + rest) == Prefixed(s, Unescape(rest))
  {
    s := [LongEscape(name).value];
    assert ([BACKSLASH, name] + rest)[2..] == rest;
  }

  lemma UnitPieceIsRead(d: bytes, rest: bytes) returns (s: bytes)
    requires Proper(Unit16(d))
    ensures Denotes(Unit16(d), s) && Unescape([BACKSLASH, LETTER_U] + d + rest) == Prefixed(s, Unescape(rest))
  {
    s := CodePointToUtf8(FourHex(d));
    EncodingIs(FourHex(d), s);
    UnitIsRead(d, rest);
  }

  lemma PairPieceIsRead(h: bytes, l: bytes, rest: bytes) returns (s: bytes)
    requires Proper(Pair(h, l))
    ensures Denotes(Pair(h, l), s) && Unescape(PieceText(Pair(h, l)) + rest) == Prefixed(s, Unescape(rest))
  {
    s := CodePointToUtf8(PairPoint(h, l));
    EncodingIs(PairPoint(h, l), s);
    PairIsRead(h, l, rest);
  }

  /** A piece is read as bytes that it denotes. */
  lemma PieceIsRead(p: Piece, rest: bytes) returns (s: bytes)
    requires Proper(p)
    ensures Denotes(p, s) && Unescape(PieceText(p) + rest) == Prefixed(s, Unescape(rest))
  {
    match p
    case Plain(c) =>
      s := [c];
      PlainReadsBack(c, rest);
    case Short(name) =>
      s := ShortIsRead(name, rest);
    case Unit16(d) =>
      s := UnitPieceIsRead(d, rest);
    case Pair(h, l) =>
      s := PairPieceIsRead(h, l, rest);
  }

  /** It denotes no others. */
  lemma DenotesOne(p: Piece, s: bytes, s': bytes)
    requires Proper(p) && Denotes(p, s) && Denotes(p, s')
    ensures s == s'
  {
    match p
    case Plain(_) =>
    case Short(_) =>
    case Unit16(d) =>
      EncodingIs(FourHex(d), s);
      EncodingIs(FourHex(d), s');
    case Pair(h, l) =>
      EncodingIs(PairPoint(h, l), s);
      EncodingIs(PairPoint(h, l), s');
  }

  // ---------- reading a string ----------

  lemma EscapeIsSkipped(c: byte, t: bytes)
    requires forall d | d in t :: JsonStrings.Plain(d)
    ensures Skipped([BACKSLASH, c] + t)
  {
    forall doc: bytes, pos: nat | At(doc, pos, [BACKSLASH, c] + t)
      ensures ScanString(doc, pos) == ScanString(doc, pos + |[BACKSLASH, c] + t|)
    {
      ScanEscape(doc, pos, c, t);
    }
  }

  lemma CharIsSkipped(c: byte)
    requires JsonStrings.Plain(c)
    ensures Skipped([c])
  {
    forall doc: bytes, pos: nat | At(doc, pos, [c])
      ensures ScanString(doc, pos) == ScanString(doc, pos + 1)
    {
      ScanPlain(doc, pos, [c]);
    }
  }

  lemma PieceIsSkipped(p: Piece)
    requires Proper(p)
    ensures Skipped(PieceText(p))
  {
    match p
    case Plain(c) => CharIsSkipped(c);
    case Short(name) =>
      assert PieceText(p) == [BACKSLASH, name] + [];
      EscapeIsSkipped(name, []);
    case Unit16(d) => EscapeIsSkipped(LETTER_U, d);
    case Pair(h, l) =>
      EscapeIsSkipped(LETTER_U, h);
      EscapeIsSkipped(LETTER_U, l);
      SkippedBoth([BACKSLASH, LETTER_U] + h, [BACKSLASH, LETTER_U] + l);
  }

  /** The pieces denote the parts, one by one. */
  ghost predicate Spell(ps: seq<Piece>, parts: seq<bytes>) {
    |ps| == |parts| && forall i | 0 <= i < |ps| :: Proper(ps[i]) && Denotes(ps[i], parts[i])
  }

  /** A text of proper pieces makes sense, and stands for what its pieces stand for. */
  lemma {:induction false} PiecesAreRead(ps: seq<Piece>) returns (parts: seq<bytes>)
    requires forall i | 0 <= i < |ps| :: Proper(ps[i])
    ensures Spell(ps, parts) && Unescape(PieceTexts(ps)) == Some(Concat(parts)) && Skipped(PieceTexts(ps))
    decreases |ps|
  {
    if ps == [] {
      parts := [];
    } else {
      var front := PieceIsRead(ps[0], PieceTexts(ps[1..]));
      var rest := PiecesAreRead(ps[1..]);
      parts := [front] + rest;
      PieceIsSkipped(ps[0]);
      SkippedBoth(PieceText(ps[0]), PieceTexts(ps[1..]));
      assert parts[1..] == rest;
    }
  }

  /** A string is one token wherever it stands, and is read as what its pieces denote. */
  lemma StringIsRead(f: Features, src: Source, doc: bytes, pos: nat, ps: seq<Piece>, depth: nat, v: Value,
                     errors: seq<Error>) returns (parts: seq<bytes>)
    requires src.Forward() && Lexes(src, doc) && depth <= STACK_LIMIT
    requires (forall i | 0 <= i < |ps| :: Proper(ps[i])) && At(doc, pos, [QUOTE] + PieceTexts(ps) + [QUOTE])
    ensures Spell(ps, parts)
    ensures pos <= src.size
    ensures ReadValue(f, src, pos, depth, v, errors)
            == Done(true, StringV(Concat(parts)), pos + |PieceTexts(ps)| + 2, errors)
  {
    parts := PiecesAreRead(ps);
    var inner := PieceTexts(ps);
    SkippedInQuotes(doc, pos, inner, Concat(parts), [QUOTE] + inner + [QUOTE]);
    StringTokenHere(doc, pos, [QUOTE] + inner + [QUOTE], Concat(parts));
    TokenHere(src, doc, pos);
    TextHere(src, doc, pos);
    StringTokenIsRead(f, src, pos, depth, v, errors, TokenAt(doc, pos), Concat(parts));
  }

  lemma StringTokenIsRead(f: Features, src: Source, pos: nat, depth: nat, v: Value, errors: seq<Error>, t: Token,
                          s: bytes)
    requires src.Forward() && pos <= src.size && depth <= STACK_LIMIT
    requires src.token(pos) == t && t.kind == StringToken && src.text(t) == Some(s)
    ensures ReadValue(f, src, pos, depth, v, errors) == Done(true, StringV(s), t.end, errors)
  {
    assert src.Ahead(pos, t);
    assert SkipCommentTokens(f, src, pos) == t;
  }

  // ---------- which texts make sense ----------

  /** What the reader lets pass: lone second halves, and anything as the second half of a pair. */
  predicate Lenient(p: Piece) {
    match p
    case Plain(c) => Proper(p)
    case Short(name) => Proper(p)
    case Unit16(d) => IsFourHex(d) && !(0xD800 <= FourHex(d) <= 0xDBFF)
    case Pair(h, l) => IsFourHex(h) && IsFourHex(l) && 0xD800 <= FourHex(h) <= 0xDBFF
  }

  ghost predicate AllLenient(ps: seq<Piece>) {
    forall i | 0 <= i < |ps| :: Lenient(ps[i])
  }

  /** Lenient pieces up to the end or to a quote. */
  ghost predicate Sensible(t: bytes, ps: seq<Piece>, rest: bytes) {
    AllLenient(ps) && t == PieceTexts(ps) + rest && (rest == [] || rest[0] == 0x22)
  }

  lemma UnitPasses(d: bytes, rest: bytes)
    requires Lenient(Unit16(d))
    ensures Unescape([BACKSLASH, LETTER_U] + d + rest).Some? <==> Unescape(rest).Some?
  {
    var t := [BACKSLASH, LETTER_U] + d + rest;
    assert t[2..] == d + rest && t[6..] == rest;
    FourHexIsRead(d + rest, d);
  }

  lemma PairPasses(h: bytes, l: bytes, rest: bytes)
    requires Lenient(Pair(h, l))
    ensures Unescape(PieceText(Pair(h, l)) + rest).Some? <==> Unescape(rest).Some?
  {
    var t := PieceText(Pair(h, l)) + rest;
    var u := h + ([BACKSLASH, LETTER_U] + l) + rest;
    assert t[2..] == u && t[12..] == rest;
    FourHexIsRead(u, h);
    assert u[4] == BACKSLASH && u[5] == LETTER_U && u[6..] == l + rest;
    FourHexIsRead(u[6..], l);
  }

  lemma PiecePasses(p: Piece, rest: bytes)
    requires Lenient(p)
    ensures Unescape(PieceText(p) + rest).Some? <==> Unescape(rest).Some?
  {
    match p
    case Plain(c) => PlainReadsBack(c, rest);
    case Short(name) => var s := ShortIsRead(name, rest);
    case Unit16(d) => UnitPasses(d, rest);
    case Pair(h, l) => PairPasses(h, l, rest);
  }

  lemma FirstOff(t: bytes, ps: seq<Piece>, rest: bytes) returns (t': bytes)
    requires Sensible(t, ps, rest) && ps != []
    ensures Lenient(ps[0]) && t == PieceText(ps[0]) + t' && Sensible(t', ps[1..], rest)
  {
    t' := PieceTexts(ps[1..]) + rest;
    Associative(PieceText(ps[0]), PieceTexts(ps[1..]), rest);
  }

  lemma OneMore(t: bytes, p: Piece, qs: seq<Piece>, rest: bytes) returns (ps: seq<Piece>)
    requires Lenient(p) && PieceText(p) <= t && Sensible(t[|PieceText(p)|..], qs, rest)
    ensures Sensible(t, ps, rest)
  {
    ps := [p] + qs;
    assert ps[1..] == qs;
    Associative(PieceText(p), PieceTexts(qs), rest);
    assert t == PieceText(p) + t[|PieceText(p)|..];
  }

  lemma {:induction false} SensiblePasses(t: bytes, ps: seq<Piece>, rest: bytes)
    requires Sensible(t, ps, rest)
    ensures Unescape(t).Some?
    decreases |ps|
  {
    if ps == [] {
      assert t == rest;
    } else {
      var t' := FirstOff(t, ps, rest);
      SensiblePasses(t', ps[1..], rest);
      PiecePasses(ps[0], t');
    }
  }

  lemma HexIsSome(t: bytes) returns (d: bytes)
    requires ReadHex(t).Some?
    ensures IsFourHex(d) && d <= t && ReadHex(t) == Some(FourHex(d))
  {
    d := t[..4];
    FourHexIsRead(t, d);
  }

  /** What a long escape that passes is. */
  lemma UnitIsPiece(t: bytes) returns (p: Piece)
    requires |t| >= 2 && t[0] == BACKSLASH && t[1] == LETTER_U && ReadCodePoint(t[2..]).Some?
    ensures Lenient(p) && PieceText(p) <= t && |PieceText(p)| == 2 + ReadCodePoint(t[2..]).value.length
  {
    var u := t[2..];
    var d := HexIsSome(u);
    if IsHighSurrogate(FourHex(d)) {
      var e := HexIsSome(u[6..]);
      p := Pair(d, e);
      assert u[..4] == d && u[6..][..4] == e;
      assert PieceText(p) == t[..12];
    } else {
      p := Unit16(d);
      assert PieceText(p) == t[..6];
    }
  }

  lemma FrontIsPiece(t: bytes) returns (p: Piece)
    requires t != [] && t[0] != QUOTE && Unescape(t).Some?
    ensures Lenient(p) && PieceText(p) <= t && PieceText(p) != [] && Unescape(t[|PieceText(p)|..]).Some?
  {
    if t[0] != BACKSLASH {
      p := Plain(t[0]);
    } else if t[1] == LETTER_U {
      p := UnitIsPiece(t);
    } else {
      p := Short(t[1]);
    }
  }

  lemma {:induction false} PassesIsSensible(t: bytes) returns (ps: seq<Piece>, rest: bytes)
    requires Unescape(t).Some?
    ensures Sensible(t, ps, rest)
    decreases |t|
  {
    if t == [] || t[0] == QUOTE {
      ps, rest := [], t;
      assert PieceTexts(ps) + rest == t;
    } else {
      var p := FrontIsPiece(t);
      ps, rest := PassesIsSensible(t[|PieceText(p)|..]);
      ps := OneMore(t, p, ps, rest);
    }
  }

  /** A text is refused exactly when it is not made of such pieces. */
  lemma MakesSense(t: bytes)
    ensures Unescape(t).Some? <==> exists ps: seq<Piece>, rest: bytes :: Sensible(t, ps, rest)
  {
    if Unescape(t).Some? {
      var ps, rest := PassesIsSensible(t);
    }
    forall ps: seq<Piece>, rest: bytes | Sensible(t, ps, rest) ensures Unescape(t).Some? {
      SensiblePasses(t, ps, rest);
    }
  }

  // ---------- what the writer writes ----------

  /** Pieces in the ASCII that RFC 8259 lets stand unescaped, and escapes. */
  predicate Printed(p: Piece) {
    match p
    case Plain(c) => 0x20 <= c < 0x80 && c != 0x22 && c != 0x5C
    case Short(name) => name in {0x22, 0x5C, 0x62, 0x66, 0x6E, 0x72, 0x74}
    case Unit16(d) => IsFourHex(d)
    case Pair(h, l) => false
  }

  ghost predicate AllPrinted(ps: seq<Piece>) {
    forall i | 0 <= i < |ps| :: Printed(ps[i])
  }

  lemma OnePiece(p: Piece)
    ensures PieceTexts([p]) == PieceText(p)
  {
    assert [p][1..] == [];
  }

  lemma {:induction false} TextsAppend(ps: seq<Piece>, qs: seq<Piece>)
    ensures PieceTexts(ps + qs) == PieceTexts(ps) + PieceTexts(qs)
    decreases |ps|
  {
    if ps == [] {
      assert ps + qs == qs;
    } else {
      assert (ps + qs)[1..] == ps[1..] + qs;
      TextsAppend(ps[1..], qs);
    }
  }

  lemma HexIsPiece(x: nat) returns (p: Piece)
    ensures Printed(p) && PieceText(p) == [BACKSLASH, LETTER_U] + Hex16(x)
  {
    p := Unit16(Hex16(x));
  }

  lemma PointIsPieces(cp: nat) returns (ps: seq<Piece>)
    requires 0x20 <= cp < 0x80 ==> cp != QUOTE as int && cp != BACKSLASH as int
    ensures PieceTexts(ps) == EscapeCodepoint(cp) && AllPrinted(ps)
  {
    if 0x20 <= cp < 0x80 {
      ps := [Plain(cp)];
      OnePiece(ps[0]);
    } else if cp < 0x10000 {
      var p := HexIsPiece(cp);
      ps := [p];
      OnePiece(p);
    } else {
      var p := HexIsPiece(HighHalf(cp));
      var q := HexIsPiece(LowHalf(cp));
      ps := [p] + [q];
      OnePiece(p);
      OnePiece(q);
      TextsAppend([p], [q]);
    }
  }

  lemma UnitIsPieces(s: bytes) returns (ps: seq<Piece>)
    requires s != []
    ensures PieceTexts(ps) == EscapeUnit(s) && AllPrinted(ps)
  {
    if ShortEscape(s[0]).Some? {
      ps := [Short(ShortEscape(s[0]).value)];
      OnePiece(ps[0]);
    } else {
      var cp := Utf8ToCodepoint(s).cp;
      if cp < 0x80 { AsciiOnlyFromAscii(s); }
      ps := PointIsPieces(cp);
    }
  }

  /** Whatever the string, its quoted form is a string of RFC 8259, in ASCII. */
  lemma {:induction false} QuotedIsString(s: bytes) returns (ps: seq<Piece>)
    ensures Quote(s) == [QUOTE] + PieceTexts(ps) + [QUOTE] && AllPrinted(ps)
  {
    ps := EscapedIsPieces(s);
  }

  lemma {:induction false} EscapedIsPieces(s: bytes) returns (ps: seq<Piece>)
    ensures PieceTexts(ps) == Escape(s) && AllPrinted(ps)
  {
    if s == [] {
      ps := [];
    } else {
      var front := UnitIsPieces(s);
      var rest := EscapedIsPieces(s[UnitLength(s)..]);
      ps := front + rest;
      TextsAppend(front, rest);
    }
  }

  // ---------- exactly how characters are written ----------

  /** Four hexadecimal digits in lower case. */
  predicate IsLowerHex(d: bytes) {
    |d| == 4 && forall i | 0 <= i < 4 :: 0x30 <= d[i] <= 0x39 || 0x61 <= d[i] <= 0x66
  }

  /** The piece in which a character is written: a short escape if there is one, itself in ASCII, else by its digits. */
  predicate Writes(p: Piece, cp: nat) {
    if cp == 0x22 || cp == 0x5C then p == Short(cp)
    else if cp == 0x08 then p == Short(0x62)
    else if cp == 0x0C then p == Short(0x66)
    else if cp == 0x0A then p == Short(0x6E)
    else if cp == 0x0D then p == Short(0x72)
    else if cp == 0x09 then p == Short(0x74)
    else if 0x20 <= cp < 0x80 then p == Plain(cp)
    else if cp < 0x10000 then p.Unit16? && IsLowerHex(p.digits) && FourHex(p.digits) == cp
    else p.Pair? && IsLowerHex(p.high) && IsLowerHex(p.low) && Proper(p) && PairPoint(p.high, p.low) == cp
  }

  lemma DigitsAreLower(x: nat)
    ensures IsLowerHex(Hex16(x))
  {
  }

  lemma SameHex(d: bytes, x: nat)
    requires IsFourHex(d) && ReadHex(d) == Some(x)
    ensures FourHex(d) == x
  {
    FourHexIsRead(d, d);
  }

  lemma NothingBehind(d: bytes)
    ensures d + [] == d
  {
  }

  lemma HexIsReadBack(x: nat) returns (d: bytes)
    ensures d == Hex16(x) && ReadHex(d) == Some(x % 0x10000)
  {
    d := Hex16(x);
    NothingBehind(d);
    HexReadsBack(x, []);
  }

  lemma HexIsLower(x: nat) returns (d: bytes)
    requires x < 0x10000
    ensures d == Hex16(x) && IsLowerHex(d) && FourHex(d) == x
  {
    DigitsAreLower(x);
    d := HexIsReadBack(x);
    SameHex(d, x);
  }

  lemma HalvesRestore(cp: nat)
    requires 0x10000 <= cp <= 0x10FFFF
    ensures 0xD800 <= HighHalf(cp) <= 0xDBFF && 0xDC00 <= LowHalf(cp) <= 0xDFFF
    ensures 0x10000 + (HighHalf(cp) - 0xD800) * 0x400 + (LowHalf(cp) - 0xDC00) == cp
  {
  }

  lemma PointIsWritten(cp: nat) returns (p: Piece)
    requires cp <= 0x10FFFF && ShortEscape(if cp < 0x80 then cp else 0x80).None?
    ensures Writes(p, cp) && PieceText(p) == EscapeCodepoint(cp)
  {
    if 0x20 <= cp < 0x80 {
      p := Plain(cp);
    } else if cp < 0x10000 {
      var d := HexIsLower(cp);
      p := Unit16(d);
    } else {
      HalvesRestore(cp);
      var h := HexIsLower(HighHalf(cp));
      var l := HexIsLower(LowHalf(cp));
      p := Pair(h, l);
    }
  }

  lemma CharIsWritten(s: bytes) returns (p: Piece)
    requires s != [] && GoodFront(s)
    ensures UnitLength(s) == CharLength(s)
    ensures Writes(p, Scalar(s)) && PieceText(p) == EscapeUnit(s)
  {
    GoodFrontSurvives(s);
    GoodUnit(s);
    if ShortEscape(s[0]).Some? {
      p := Short(ShortEscape(s[0]).value);
    } else {
      if Scalar(s) < 0x80 { AsciiOnlyFromAscii(s); }
      p := PointIsWritten(Scalar(s));
    }
  }

  /** The code points of a well-formed string. */
  function CodePoints(s: bytes): seq<nat> {
    if CharLength(s) == 0 then [] else [Scalar(s)] + CodePoints(s[CharLength(s)..])
  }

  /** A string that survives is written character by character, each as the piece for its code point. */
  lemma {:induction false} StringIsWritten(s: bytes) returns (ps: seq<Piece>)
    requires Representable(s)
    ensures PieceTexts(ps) == Escape(s) && |ps| == |CodePoints(s)|
    ensures forall i | 0 <= i < |ps| :: Writes(ps[i], CodePoints(s)[i])
    decreases |s|
  {
    if s == [] {
      ps := [];
    } else {
      var p := CharIsWritten(s);
      var rest := StringIsWritten(s[CharLength(s)..]);
      ps := [p] + rest;
    }
  }
}
