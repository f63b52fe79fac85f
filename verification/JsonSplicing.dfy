/**
 A comment inserted into a document: how the tokens before and behind it
 relate to those of the document without it.
 */
module JsonSplicing {
  import opened Wrappers
  import opened Bytes
  import opened JsonStrings
  import opened JsonLexer
  import opened JsonGrammar
  import opened JsonComments

  // ---------- the documents ----------

  /** From a position on the one document is the other, n characters further on. */
  predicate ShiftedFrom(doc: bytes, doc': bytes, p: nat, n: nat) {
    |doc'| == |doc| + n && forall i | p <= i < |doc| :: doc'[i + n] == doc[i]
  }

  /** Up to a position the documents agree; there the other one goes on with a slash. */
  predicate SlashAt(doc: bytes, doc': bytes, p: nat) {
    p <= |doc| && p < |doc'| && doc'[p] == SLASH && forall i | 0 <= i < p :: doc'[i] == doc[i]
  }

  function Insert(doc: bytes, p: nat, c: bytes): bytes
    requires p <= |doc|
  {
    doc[..p] + c + doc[p..]
  }

  lemma Inserted(doc: bytes, p: nat, c: bytes)
    requires p <= |doc| && IsComment(c)
    ensures ShiftedFrom(doc, Insert(doc, p, c), p, |c|) && SlashAt(doc, Insert(doc, p, c), p)
    ensures At(Insert(doc, p, c), p, c)
  {
    assert c[0] == c[..2][0];
  }

  function Shift(t: Token, n: nat): Token {
    Token(t.kind, t.start + n, t.end + n)
  }

  function ShiftScan(s: Scan, n: nat): Scan {
    Scan(s.pos + n, s.ok)
  }

  // ---------- behind the comment ----------

  lemma {:induction false} SpacesShift(doc: bytes, doc': bytes, p: nat, n: nat, q: nat)
    requires ShiftedFrom(doc, doc', p, n) && p <= q <= |doc|
    ensures SkipSpaces(doc', q + n) == SkipSpaces(doc, q) + n
    decreases |doc| - q
  {
    if q < |doc| && IsSpace(doc[q]) { SpacesShift(doc, doc', p, n, q + 1); }
  }

  lemma {:induction false} StringShift(doc: bytes, doc': bytes, p: nat, n: nat, q: nat)
    requires ShiftedFrom(doc, doc', p, n) && p <= q <= |doc|
    ensures ScanString(doc', q + n) == ShiftScan(ScanString(doc, q), n)
    decreases |doc| - q
  {
    if q < |doc| && doc[q] != QUOTE {
      StringShift(doc, doc', p, n, if doc[q] == BACKSLASH && q + 1 < |doc| then q + 2 else q + 1);
    }
  }

  lemma {:induction false} CStyleShift(doc: bytes, doc': bytes, p: nat, n: nat, q: nat)
    requires ShiftedFrom(doc, doc', p, n) && p <= q <= |doc|
    ensures CStyleComment(doc', q + n) == ShiftScan(CStyleComment(doc, q), n)
    decreases |doc| - q
  {
    if q + 1 < |doc| {
      assert doc'[q + n] == doc[q] && doc'[q + 1 + n] == doc[q + 1];
      CStyleShift(doc, doc', p, n, q + 1);
    }
  }

  lemma {:induction false} CppStyleShift(doc: bytes, doc': bytes, p: nat, n: nat, q: nat)
    requires ShiftedFrom(doc, doc', p, n) && p <= q <= |doc|
    ensures CppStyleComment(doc', q + n) == CppStyleComment(doc, q) + n
    decreases |doc| - q
  {
    if q < |doc| {
      assert q + 1 < |doc| ==> doc'[q + 1 + n] == doc[q + 1];
      CppStyleShift(doc, doc', p, n, q + 1);
    }
  }

  lemma {:induction false} DigitsShift(doc: bytes, doc': bytes, p: nat, n: nat, q: nat)
    requires ShiftedFrom(doc, doc', p, n) && p <= q <= |doc|
    ensures DigitsEnd(doc', q + n) == DigitsEnd(doc, q) + n
    decreases |doc| - q
  {
    if q < |doc| && IsDigit(doc[q]) { DigitsShift(doc, doc', p, n, q + 1); }
  }

  lemma NumberShift(doc: bytes, doc': bytes, p: nat, n: nat, q: nat)
    requires ShiftedFrom(doc, doc', p, n) && p <= q <= |doc|
    ensures NumberEnd(doc', q + n) == NumberEnd(doc, q) + n
  {
    DigitsShift(doc, doc', p, n, q);
    FractionShift(doc, doc', p, n, DigitsEnd(doc, q));
    ExponentShift(doc, doc', p, n, FractionEnd(doc, DigitsEnd(doc, q)));
  }

  lemma FractionShift(doc: bytes, doc': bytes, p: nat, n: nat, q: nat)
    requires ShiftedFrom(doc, doc', p, n) && p <= q <= |doc|
    ensures FractionEnd(doc', q + n) == FractionEnd(doc, q) + n
  {
    if q < |doc| { DigitsShift(doc, doc', p, n, q + 1); }
  }

  lemma ExponentShift(doc: bytes, doc': bytes, p: nat, n: nat, q: nat)
    requires ShiftedFrom(doc, doc', p, n) && p <= q <= |doc|
    ensures ExponentEnd(doc', q + n) == ExponentEnd(doc, q) + n
  {
    if q < |doc| {
      DigitsShift(doc, doc', p, n, q + 1);
      if q + 1 < |doc| {
        assert doc'[q + 1 + n] == doc[q + 1];
        DigitsShift(doc, doc', p, n, q + 2);
      }
    }
  }

  lemma CommentShift(doc: bytes, doc': bytes, p: nat, n: nat, q: nat)
    requires ShiftedFrom(doc, doc', p, n) && p <= q <= |doc|
    ensures CommentScan(doc', q + n) == ShiftScan(CommentScan(doc, q), n)
  {
    if q < |doc| {
      CStyleShift(doc, doc', p, n, q + 1);
      CppStyleShift(doc, doc', p, n, q + 1);
    }
  }

  lemma KeywordShift(doc: bytes, doc': bytes, p: nat, n: nat, q: nat, rest: bytes, kind: TokenType)
    requires ShiftedFrom(doc, doc', p, n) && p <= q < |doc|
    ensures Keyword(doc', q + n, rest, kind) == Shift(Keyword(doc, q, rest, kind), n)
  {
    if At(doc, q + 1, rest) {
      forall i | 0 <= i < |rest| ensures doc'[q + n + 1 + i] == rest[i] { assert doc'[q + 1 + i + n] == doc[q + 1 + i]; }
    }
    if At(doc', q + n + 1, rest) {
      forall i | 0 <= i < |rest| ensures doc[q + 1 + i] == rest[i] { assert doc'[q + 1 + i + n] == doc[q + 1 + i]; }
    }
  }

  lemma TokenAtShift(doc: bytes, doc': bytes, p: nat, n: nat, q: nat)
    requires ShiftedFrom(doc, doc', p, n) && p <= q < |doc|
    ensures TokenAt(doc', q + n) == Shift(TokenAt(doc, q), n)
  {
    var c := doc[q];
    assert doc'[q + n] == c;
    if c == QUOTE {
      StringShift(doc, doc', p, n, q + 1);
    } else if c == SLASH {
      CommentShift(doc, doc', p, n, q + 1);
    } else if IsDigit(c) || c == MINUS {
      NumberShift(doc, doc', p, n, q + 1);
    } else if c == LETTER_T {
      KeywordShift(doc, doc', p, n, q, RUE, TrueToken);
    } else if c == LETTER_F {
      KeywordShift(doc, doc', p, n, q, ALSE, FalseToken);
    } else if c == LETTER_N {
      KeywordShift(doc, doc', p, n, q, ULL, NullToken);
    }
  }

  /** Behind the comment the tokens are the same, further on. */
  lemma ReadTokenShift(doc: bytes, doc': bytes, p: nat, n: nat, q: nat)
    requires ShiftedFrom(doc, doc', p, n) && p <= q <= |doc|
    ensures ReadToken(doc', q + n) == Shift(ReadToken(doc, q), n)
  {
    SpacesShift(doc, doc', p, n, q);
    if SkipSpaces(doc, q) < |doc| { TokenAtShift(doc, doc', p, n, SkipSpaces(doc, q)); }
  }

  // ---------- in front of the comment ----------

  lemma {:induction false} SpacesStop(doc: bytes, doc': bytes, p: nat, q: nat)
    requires SlashAt(doc, doc', p) && q <= p
    ensures SkipSpaces(doc', q) == if SkipSpaces(doc, q) <= p then SkipSpaces(doc, q) else p
    decreases p - q
  {
    if q < p && IsSpace(doc[q]) { SpacesStop(doc, doc', p, q + 1); }
  }

  lemma {:induction false} StringStays(doc: bytes, doc': bytes, p: nat, q: nat)
    requires SlashAt(doc, doc', p) && q <= p && ScanString(doc, q).ok && ScanString(doc, q).pos <= p
    ensures ScanString(doc', q) == ScanString(doc, q)
    decreases p - q
  {
    if doc[q] != QUOTE {
      StringStays(doc, doc', p, if doc[q] == BACKSLASH && q + 1 < |doc| then q + 2 else q + 1);
    }
  }

  /** A scan that ends inside the document has found the closing sign. */
  lemma {:induction false} CStyleStays(doc: bytes, doc': bytes, p: nat, q: nat)
    requires SlashAt(doc, doc', p) && q <= p && CStyleComment(doc, q).pos <= p && CStyleComment(doc, q).pos < |doc|
    ensures CStyleComment(doc', q) == CStyleComment(doc, q)
    decreases p - q
  {
    if !(doc[q] == STAR && doc[q + 1] == SLASH) { CStyleStays(doc, doc', p, q + 1); }
  }

  lemma {:induction false} CppStyleStays(doc: bytes, doc': bytes, p: nat, q: nat)
    requires SlashAt(doc, doc', p) && q <= p && CppStyleComment(doc, q) <= p && CppStyleComment(doc, q) < |doc|
    ensures CppStyleComment(doc', q) == CppStyleComment(doc, q)
    decreases p - q
  {
    if doc[q] != LINE_FEED && doc[q] != RETURN { CppStyleStays(doc, doc', p, q + 1); }
  }

  lemma {:induction false} DigitsStay(doc: bytes, doc': bytes, p: nat, q: nat)
    requires SlashAt(doc, doc', p) && q <= p && DigitsEnd(doc, q) <= p
    ensures DigitsEnd(doc', q) == DigitsEnd(doc, q)
    decreases p - q
  {
    if q < p && IsDigit(doc[q]) { DigitsStay(doc, doc', p, q + 1); }
  }

  lemma FractionStays(doc: bytes, doc': bytes, p: nat, q: nat)
    requires SlashAt(doc, doc', p) && q <= p && FractionEnd(doc, q) <= p
    ensures FractionEnd(doc', q) == FractionEnd(doc, q)
  {
    if q < p && doc[q] == DOT { DigitsStay(doc, doc', p, q + 1); }
  }

  lemma ExponentStays(doc: bytes, doc': bytes, p: nat, q: nat)
    requires SlashAt(doc, doc', p) && q <= p && ExponentEnd(doc, q) <= p
    ensures ExponentEnd(doc', q) == ExponentEnd(doc, q)
  {
    if q < p && (doc[q] == LETTER_E || doc[q] == CAPITAL_E) {
      if q + 1 < |doc| && (doc[q + 1] == PLUS || doc[q + 1] == MINUS) {
        DigitsStay(doc, doc', p, q + 2);
      } else {
        DigitsStay(doc, doc', p, q + 1);
      }
    }
  }

  lemma NumberStays(doc: bytes, doc': bytes, p: nat, q: nat)
    requires SlashAt(doc, doc', p) && q <= p && NumberEnd(doc, q) <= p
    ensures NumberEnd(doc', q) == NumberEnd(doc, q)
  {
    DigitsStay(doc, doc', p, q);
    FractionStays(doc, doc', p, DigitsEnd(doc, q));
    ExponentStays(doc, doc', p, FractionEnd(doc, DigitsEnd(doc, q)));
  }

  lemma SlashWithin(doc: bytes, p: nat, q: nat, rest: bytes)
    requires At(doc, q, rest) && q <= p < q + |rest| && doc[p] == SLASH
    ensures SLASH in rest
  {
    assert doc[q + (p - q)] == rest[p - q];
  }

  lemma NoNewKeyword(doc: bytes, doc': bytes, p: nat, q: nat, rest: bytes)
    requires SlashAt(doc, doc', p) && q <= p && At(doc', q, rest) && SLASH !in rest
    ensures At(doc, q, rest)
  {
    if p < q + |rest| { SlashWithin(doc', p, q, rest); }
    forall i | 0 <= i < |rest| ensures doc[q + i] == rest[i] { assert doc'[q + i] == doc[q + i]; }
  }

  lemma KeywordStays(doc: bytes, doc': bytes, p: nat, q: nat, rest: bytes, kind: TokenType)
    requires SlashAt(doc, doc', p) && q < p && Keyword(doc, q, rest, kind).end <= p && SLASH !in rest
    ensures Keyword(doc', q, rest, kind) == Keyword(doc, q, rest, kind)
  {
    if At(doc', q + 1, rest) { NoNewKeyword(doc, doc', p, q + 1, rest); }
  }

  /** The token does not depend on what comes at the end of the document. */
  predicate Finished(t: Token, size: nat) {
    t.end < size || (t.kind != Comment && t.kind != ErrorToken)
  }

  lemma CommentStays(doc: bytes, doc': bytes, p: nat, q: nat)
    requires SlashAt(doc, doc', p) && q <= p && CommentScan(doc, q).pos <= p && CommentScan(doc, q).pos < |doc|
    ensures CommentScan(doc', q) == CommentScan(doc, q)
  {
    if q < p {
      if doc[q] == STAR {
        CStyleStays(doc, doc', p, q + 1);
      } else if doc[q] == SLASH {
        CppStyleStays(doc, doc', p, q + 1);
      }
    }
  }

  lemma TokenAtStays(doc: bytes, doc': bytes, p: nat, q: nat)
    requires SlashAt(doc, doc', p) && q < p && TokenAt(doc, q).end <= p && Finished(TokenAt(doc, q), |doc|)
    ensures TokenAt(doc', q) == TokenAt(doc, q)
  {
    var c := doc[q];
    assert doc'[q] == c;
    if c == QUOTE {
      UnclosedToTheEnd(doc, q + 1);
      StringStays(doc, doc', p, q + 1);
    } else if c == SLASH {
      CommentStays(doc, doc', p, q + 1);
    } else if IsDigit(c) || c == MINUS {
      NumberStays(doc, doc', p, q + 1);
    } else if c == LETTER_T {
      KeywordStays(doc, doc', p, q, RUE, TrueToken);
    } else if c == LETTER_F {
      KeywordStays(doc, doc', p, q, ALSE, FalseToken);
    } else if c == LETTER_N {
      KeywordStays(doc, doc', p, q, ULL, NullToken);
    }
  }

  lemma {:induction false} UnclosedToTheEnd(doc: bytes, q: nat)
    requires q <= |doc|
    ensures !ScanString(doc, q).ok ==> ScanString(doc, q).pos == |doc|
    decreases |doc| - q
  {
    if q < |doc| && doc[q] != QUOTE {
      UnclosedToTheEnd(doc, if doc[q] == BACKSLASH && q + 1 < |doc| then q + 2 else q + 1);
    }
  }

  /** A token in front of the comment stays; where the next token began behind it, the comment is read instead. */
  lemma ReadTokenStays(doc: bytes, doc': bytes, p: nat, q: nat)
    requires SlashAt(doc, doc', p) && q <= p
    ensures var t := ReadToken(doc, q);
            && (t.start < t.end <= p && Finished(t, |doc|) ==> ReadToken(doc', q) == t)
            && (p <= t.start ==> ReadToken(doc', q) == TokenAt(doc', p) && ReadToken(doc, p) == t)
  {
    var t := ReadToken(doc, q);
    SpacesStop(doc, doc', p, q);
    if t.start < t.end <= p && Finished(t, |doc|) {
      TokenAtStays(doc, doc', p, SkipSpaces(doc, q));
    }
    if p <= t.start { SpacesFrom(doc, q, p); }
  }

  lemma {:induction false} SpacesFrom(doc: bytes, q: nat, p: nat)
    requires q <= |doc| && q <= p <= SkipSpaces(doc, q)
    ensures SkipSpaces(doc, p) == SkipSpaces(doc, q)
    decreases p - q
  {
    if q < p { SpacesFrom(doc, q + 1, p); }
  }

  // ---------- the sources ----------

  predicate BehindAt(src: Source, src': Source, p: nat, n: nat, q: nat) {
    p <= q <= src.size ==> src'.token(q + n) == Shift(src.token(q), n)
  }

  predicate BeforeAt(src: Source, src': Source, p: nat, n: nat, q: nat) {
    q <= p ==>
      var t := src.token(q);
      && (t.start < t.end <= p && Finished(t, src.size) ==> src'.token(q) == t)
      && (p <= t.start ==> src'.token(q) == Token(Comment, p, p + n) && src.token(p) == t)
  }

  /**
   A token is read again from where it begins; only the end of the document is an empty
   token, and a closing sign is a single character.
   */
  predicate PlainAt(src: Source, q: nat) {
    q <= src.size ==>
      var t := src.token(q);
      && src.token(t.start) == t
      && (t.start == t.end ==> t.end == src.size)
      && (t.kind == ArrayEnd ==> t.end > 0 && src.token(t.end - 1) == t)
  }

  predicate MeansTheSame(src: Source, src': Source, p: nat, n: nat, t: Token) {
    t.start <= src.size && src.token(t.start) == t ==>
      && (t.start < t.end <= p && Finished(t, src.size) ==>
            src'.text(t) == src.text(t) && src'.number(t) == src.number(t))
      && (p <= t.start ==> src'.text(Shift(t, n)) == src.text(t) && src'.number(Shift(t, n)) == src.number(t))
  }

  /** The second source is the first one with a comment of n characters put in at p. */
  ghost predicate Spliced(src: Source, src': Source, p: nat, n: nat) {
    && src.Forward() && src'.Forward() && p <= src.size && src'.size == src.size + n && n > 0
    && (forall q: nat {:trigger BehindAt(src, src', p, n, q)} :: BehindAt(src, src', p, n, q))
    && (forall q: nat {:trigger BeforeAt(src, src', p, n, q)} :: BeforeAt(src, src', p, n, q))
    && (forall q: nat {:trigger PlainAt(src, q)} :: PlainAt(src, q))
    && (forall t: Token {:trigger MeansTheSame(src, src', p, n, t)} :: MeansTheSame(src, src', p, n, t))
  }

  lemma SliceShifts(doc: bytes, doc': bytes, p: nat, n: nat, a: nat, b: nat)
    requires ShiftedFrom(doc, doc', p, n) && p <= a <= b <= |doc|
    ensures doc'[a + n..b + n] == doc[a..b]
  {
  }

  lemma NumberText(toDouble: bytes -> Option<real>, doc: bytes, t: Token, text: bytes)
    requires t.start < t.end <= |doc| && text == doc[t.start..t.end]
    ensures DecodeNumberToken(toDouble, doc, t) == DecodeNumberText(toDouble, text)
  {
  }

  lemma StringText(doc: bytes, t: Token, text: bytes)
    requires t.start + 2 <= t.end <= |doc| && text == doc[t.start + 1..t.end - 1]
    ensures DecodeStringToken(doc, t) == Unescape(text)
  {
  }

  /** The same characters denote the same in both documents. */
  lemma NumberSame(toDouble: bytes -> Option<real>, doc: bytes, doc': bytes, t: Token, t': Token, text: bytes)
    requires t.start <= t.end <= |doc| && t'.start <= t'.end <= |doc'|
    requires doc[t.start..t.end] == text && doc'[t'.start..t'.end] == text
    ensures DecodeNumberToken(toDouble, doc, t) == DecodeNumberToken(toDouble, doc', t')
  {
    if text != [] {
      NumberText(toDouble, doc, t, text);
      NumberText(toDouble, doc', t', text);
    }
  }

  lemma TextSame(doc: bytes, doc': bytes, t: Token, t': Token, text: bytes)
    requires t.start + 2 <= t.end <= |doc| && t'.start + 2 <= t'.end <= |doc'|
    requires doc[t.start + 1..t.end - 1] == text && doc'[t'.start + 1..t'.end - 1] == text
    ensures DecodeStringToken(doc, t) == DecodeStringToken(doc', t')
  {
    StringText(doc, t, text);
    StringText(doc', t', text);
  }

  /** Both documents have the token, there of the same characters. */
  lemma SameDenoted(toDouble: bytes -> Option<real>, src: Source, src': Source, doc: bytes, doc': bytes, t: Token,
                    t': Token)
    requires Tokenizes(src, toDouble, doc) && Tokenizes(src', toDouble, doc')
    requires t.start <= |doc| && ReadToken(doc, t.start) == t && t'.start <= |doc'| && ReadToken(doc', t'.start) == t'
    requires DecodeNumberToken(toDouble, doc, t) == DecodeNumberToken(toDouble, doc', t')
    requires DecodeStringToken(doc, t) == DecodeStringToken(doc', t')
    ensures src'.text(t') == src.text(t) && src'.number(t') == src.number(t)
  {
    assert src.text(t) == DecodeStringToken(doc, ReadToken(doc, t.start));
    assert src'.text(t') == DecodeStringToken(doc', ReadToken(doc', t'.start));
    assert src.number(t) == DecodeNumberToken(toDouble, doc, ReadToken(doc, t.start));
    assert src'.number(t') == DecodeNumberToken(toDouble, doc', ReadToken(doc', t'.start));
  }

  lemma InnerSlice(doc: bytes, a: nat, b: nat, text: bytes)
    requires a + 2 <= b <= |doc| && doc[a..b] == text
    ensures doc[a + 1..b - 1] == text[1..|text| - 1]
  {
    var inner, cut := doc[a + 1..b - 1], text[1..|text| - 1];
    forall i | 0 <= i < |inner| ensures inner[i] == cut[i] { assert text[i + 1] == doc[a + (i + 1)]; }
  }

  lemma SameText(doc: bytes, doc': bytes, t: Token, t': Token, text: bytes)
    requires t.start <= t.end <= |doc| && t'.start <= t'.end <= |doc'|
    requires doc[t.start..t.end] == text && doc'[t'.start..t'.end] == text
    ensures DecodeStringToken(doc, t) == DecodeStringToken(doc', t')
  {
    if |text| >= 2 {
      InnerSlice(doc, t.start, t.end, text);
      InnerSlice(doc', t'.start, t'.end, text);
      TextSame(doc, doc', t, t', text[1..|text| - 1]);
    }
  }

  lemma SameDecoded(toDouble: bytes -> Option<real>, doc: bytes, doc': bytes, t: Token, t': Token, text: bytes)
    requires t.start <= t.end <= |doc| && t'.start <= t'.end <= |doc'|
    requires doc[t.start..t.end] == text && doc'[t'.start..t'.end] == text
    ensures DecodeNumberToken(toDouble, doc, t) == DecodeNumberToken(toDouble, doc', t')
    ensures DecodeStringToken(doc, t) == DecodeStringToken(doc', t')
  {
    NumberSame(toDouble, doc, doc', t, t', text);
    SameText(doc, doc', t, t', text);
  }

  lemma DecodesBefore(toDouble: bytes -> Option<real>, src: Source, src': Source, doc: bytes, doc': bytes, p: nat,
                      t: Token)
    requires Tokenizes(src, toDouble, doc) && Tokenizes(src', toDouble, doc')
    requires SlashAt(doc, doc', p) && t.start < t.end <= p && ReadToken(doc, t.start) == t && Finished(t, |doc|)
    ensures src'.text(t) == src.text(t) && src'.number(t) == src.number(t)
  {
    ReadTokenStays(doc, doc', p, t.start);
    assert doc'[t.start..t.end] == doc[t.start..t.end];
    SameDecoded(toDouble, doc, doc', t, t, doc[t.start..t.end]);
    SameDenoted(toDouble, src, src', doc, doc', t, t);
  }

  lemma DecodesBehind(toDouble: bytes -> Option<real>, src: Source, src': Source, doc: bytes, doc': bytes, p: nat,
                      n: nat, t: Token)
    requires Tokenizes(src, toDouble, doc) && Tokenizes(src', toDouble, doc')
    requires ShiftedFrom(doc, doc', p, n) && p <= t.start <= |doc| && ReadToken(doc, t.start) == t
    ensures src'.text(Shift(t, n)) == src.text(t) && src'.number(Shift(t, n)) == src.number(t)
  {
    ReadTokenShift(doc, doc', p, n, t.start);
    SliceShifts(doc, doc', p, n, t.start, t.end);
    SameDecoded(toDouble, doc, doc', t, Shift(t, n), doc[t.start..t.end]);
    SameDenoted(toDouble, src, src', doc, doc', t, Shift(t, n));
  }

  lemma DecodesTheSame(toDouble: bytes -> Option<real>, src: Source, src': Source, doc: bytes, doc': bytes, p: nat,
                       n: nat, t: Token)
    requires Tokenizes(src, toDouble, doc) && Tokenizes(src', toDouble, doc')
    requires ShiftedFrom(doc, doc', p, n) && SlashAt(doc, doc', p)
    ensures MeansTheSame(src, src', p, n, t)
  {
    if t.start <= |doc| && src.token(t.start) == t {
      assert ReadToken(doc, t.start) == t;
      if t.start < t.end <= p && Finished(t, |doc|) { DecodesBefore(toDouble, src, src', doc, doc', p, t); }
      if p <= t.start { DecodesBehind(toDouble, src, src', doc, doc', p, n, t); }
    }
  }

  lemma DocumentIsPlain(src: Source, toDouble: bytes -> Option<real>, doc: bytes, q: nat)
    requires Tokenizes(src, toDouble, doc)
    ensures PlainAt(src, q)
  {
    if q <= |doc| {
      var t := ReadToken(doc, q);
      ReadAgain(doc, q);
      assert src.token(t.start) == ReadToken(doc, t.start);
      if t.kind == ArrayEnd {
        assert SkipSpaces(doc, t.end - 1) == t.start;
        assert src.token(t.end - 1) == ReadToken(doc, t.end - 1);
      }
    }
  }

  lemma TokensBehind(src: Source, src': Source, toDouble: bytes -> Option<real>, doc: bytes, doc': bytes, p: nat,
                     n: nat, q: nat)
    requires Tokenizes(src, toDouble, doc) && Tokenizes(src', toDouble, doc') && ShiftedFrom(doc, doc', p, n)
    ensures BehindAt(src, src', p, n, q)
  {
    if p <= q <= |doc| { ReadTokenShift(doc, doc', p, n, q); }
  }

  lemma TokensBefore(src: Source, src': Source, toDouble: bytes -> Option<real>, doc: bytes, doc': bytes, p: nat,
                     n: nat, q: nat)
    requires Tokenizes(src, toDouble, doc) && Tokenizes(src', toDouble, doc')
    requires SlashAt(doc, doc', p) && TokenAt(doc', p) == Token(Comment, p, p + n)
    ensures BeforeAt(src, src', p, n, q)
  {
    if q <= p {
      ReadTokenStays(doc, doc', p, q);
      assert src.token(p) == ReadToken(doc, p);
    }
  }

  lemma SourcesSpliced(src: Source, src': Source, toDouble: bytes -> Option<real>, doc: bytes, doc': bytes, p: nat,
                       n: nat)
    requires src.Forward() && Tokenizes(src, toDouble, doc) && src'.Forward() && Tokenizes(src', toDouble, doc')
    requires n > 0 && ShiftedFrom(doc, doc', p, n) && SlashAt(doc, doc', p) && TokenAt(doc', p) == Token(Comment, p, p + n)
    ensures Spliced(src, src', p, n)
  {
    forall q: nat ensures BehindAt(src, src', p, n, q) { TokensBehind(src, src', toDouble, doc, doc', p, n, q); }
    forall q: nat ensures BeforeAt(src, src', p, n, q) { TokensBefore(src, src', toDouble, doc, doc', p, n, q); }
    forall q: nat ensures PlainAt(src, q) { DocumentIsPlain(src, toDouble, doc, q); }
    forall t: Token ensures MeansTheSame(src, src', p, n, t) {
      DecodesTheSame(toDouble, src, src', doc, doc', p, n, t);
    }
  }

  lemma DocumentIsSpliced(toDouble: bytes -> Option<real>, doc: bytes, p: nat, c: bytes)
    requires p <= |doc| && IsComment(c)
    ensures Spliced(SourceOf(toDouble, doc), SourceOf(toDouble, Insert(doc, p, c)), p, |c|)
  {
    var doc' := Insert(doc, p, c);
    Inserted(doc, p, c);
    CommentHere(doc', p, c);
    DocumentIsTokenized(toDouble, doc);
    DocumentIsTokenized(toDouble, doc');
    SourcesSpliced(SourceOf(toDouble, doc), SourceOf(toDouble, doc'), toDouble, doc, doc', p, |c|);
  }
}
