/**
 The tokens by their texts: for every kind but errors, exactly which piece of the
 document is a token of that kind.
 */
module JsonTokens {
  import opened Bytes
  import opened JsonStrings
  import opened JsonLexer
  import opened JsonNumberTokens

  // ---------- texts of tokens ----------

  /** Characters other than quote and backslash, and backslashes with a character each. */
  predicate Chunks(t: bytes) {
    || t == []
    || (t[0] != 0x22 && t[0] != 0x5C && Chunks(t[1..]))
    || (|t| >= 2 && t[0] == 0x5C && Chunks(t[2..]))
  }

  /** A string from one quote to the other. */
  predicate IsQuoted(doc: bytes, pos: nat, end: nat) {
    && pos + 2 <= end <= |doc| && doc[pos] == 0x22 && doc[end - 1] == 0x22
    && Chunks(doc[pos + 1..end - 1])
  }

  /** No star is followed by a slash between the positions. */
  predicate NoStarSlash(doc: bytes, from: nat, to: nat)
    requires to < |doc|
  {
    forall i | from <= i < to :: !(doc[i] == 0x2A && doc[i + 1] == 0x2F)
  }

  /** From slash and star to star and slash. */
  predicate IsBlockComment(doc: bytes, pos: nat, end: nat) {
    && pos + 4 <= end <= |doc| && doc[pos] == 0x2F && doc[pos + 1] == 0x2A
    && doc[end - 2] == 0x2A && doc[end - 1] == 0x2F && NoStarSlash(doc, pos + 2, end - 2)
  }

  /** One that is not closed passes if the document ends with a slash. */
  predicate IsOpenComment(doc: bytes, pos: nat, end: nat) {
    && pos + 3 <= end == |doc| && doc[pos] == 0x2F && doc[pos + 1] == 0x2A
    && doc[end - 1] == 0x2F && NoStarSlash(doc, pos + 2, end - 1)
  }

  predicate IsLineEnd(c: byte) {
    c == 0x0A || c == 0x0D
  }

  /** The line goes on up to its end: a line feed, a carriage return, both, or the end of the document. */
  predicate EndsLine(doc: bytes, from: nat, to: nat, end: nat) {
    && from <= to <= end <= |doc| && (forall i | from <= i < to :: !IsLineEnd(doc[i]))
    && if to == |doc| then end == to
       else if doc[to] == 0x0D && to + 1 < |doc| && doc[to + 1] == 0x0A then end == to + 2
       else IsLineEnd(doc[to]) && end == to + 1
  }

  ghost predicate LineEndsAt(doc: bytes, from: nat, end: nat) {
    exists to: nat :: EndsLine(doc, from, to, end)
  }

  /** From two slashes to the end of the line. */
  ghost predicate IsLineComment(doc: bytes, pos: nat, end: nat) {
    && pos + 2 <= |doc| && doc[pos] == 0x2F && doc[pos + 1] == 0x2F
    && LineEndsAt(doc, pos + 2, end)
  }

  /** The text between the positions is a token of the kind. */
  ghost predicate IsLexeme(doc: bytes, pos: nat, end: nat, kind: TokenType)
    requires pos < |doc| && kind != ErrorToken
  {
    match kind
    case ObjectBegin => doc[pos] == 0x7B && end == pos + 1
    case ObjectEnd => doc[pos] == 0x7D && end == pos + 1
    case ArrayBegin => doc[pos] == 0x5B && end == pos + 1
    case ArrayEnd => doc[pos] == 0x5D && end == pos + 1
    case ArraySeparator => doc[pos] == 0x2C && end == pos + 1
    case MemberSeparator => doc[pos] == 0x3A && end == pos + 1
    case EndOfStream => doc[pos] == 0x00 && end == pos + 1
    case TrueToken => At(doc, pos, [0x74, 0x72, 0x75, 0x65]) && end == pos + 4
    case FalseToken => At(doc, pos, [0x66, 0x61, 0x6C, 0x73, 0x65]) && end == pos + 5
    case NullToken => At(doc, pos, [0x6E, 0x75, 0x6C, 0x6C]) && end == pos + 4
    case StringToken => IsQuoted(doc, pos, end)
    case NumberToken => exists n: Loose :: n.StandsAt(doc, pos) && end == pos + |n.Text()|
    case Comment => IsBlockComment(doc, pos, end) || IsOpenComment(doc, pos, end) || IsLineComment(doc, pos, end)
  }

  // ---------- strings ----------

  lemma {:induction false} ScanIsChunks(doc: bytes, pos: nat, end: nat)
    requires pos <= |doc|
    ensures ScanString(doc, pos) == Scan(end, true)
            <==> pos < end <= |doc| && doc[end - 1] == 0x22 && Chunks(doc[pos..end - 1])
    decreases |doc| - pos
  {
    if pos < |doc| && doc[pos] != QUOTE {
      var k := if doc[pos] == BACKSLASH && pos + 1 < |doc| then 2 else 1;
      ScanIsChunks(doc, pos + k, end);
      if pos < end <= |doc| {
        var t := doc[pos..end - 1];
        if |t| >= k { assert t[k..] == doc[pos + k..end - 1]; }
      }
    }
  }

  lemma StringLexeme(doc: bytes, pos: nat, end: nat)
    requires pos < |doc|
    ensures TokenAt(doc, pos) == Token(StringToken, pos, end) <==> IsQuoted(doc, pos, end)
  {
    ScanIsChunks(doc, pos + 1, end);
  }

  // ---------- comments ----------

  lemma {:induction false} BlockEnds(doc: bytes, pos: nat, end: nat)
    requires pos <= |doc|
    ensures CStyleComment(doc, pos) == Scan(end, true)
            <==> || (pos + 2 <= end <= |doc| && doc[end - 2] == 0x2A && doc[end - 1] == 0x2F && NoStarSlash(doc, pos, end - 2))
                 || (pos + 1 <= end == |doc| && doc[end - 1] == 0x2F && NoStarSlash(doc, pos, end - 1))
    decreases |doc| - pos
  {
    if pos + 1 < |doc| && !(doc[pos] == STAR && doc[pos + 1] == SLASH) {
      BlockEnds(doc, pos + 1, end);
    }
  }

  lemma {:induction false} LineEnds(doc: bytes, pos: nat) returns (to: nat)
    requires pos <= |doc|
    ensures EndsLine(doc, pos, to, CppStyleComment(doc, pos))
    decreases |doc| - pos
  {
    if pos == |doc| || IsLineEnd(doc[pos]) {
      to := pos;
    } else {
      to := LineEnds(doc, pos + 1);
    }
  }

  lemma OneLineEnd(doc: bytes, pos: nat, to: nat, end: nat, to': nat, end': nat)
    requires EndsLine(doc, pos, to, end) && EndsLine(doc, pos, to', end')
    ensures to == to' && end == end'
  {
  }

  lemma LineScanEnds(doc: bytes, from: nat, end: nat)
    requires from <= |doc|
    ensures CppStyleComment(doc, from) == end <==> LineEndsAt(doc, from, end)
  {
    var to := LineEnds(doc, from);
    forall to': nat | EndsLine(doc, from, to', end) ensures CppStyleComment(doc, from) == end {
      OneLineEnd(doc, from, to, CppStyleComment(doc, from), to', end);
    }
  }

  lemma CommentLexeme(doc: bytes, pos: nat, end: nat)
    requires pos < |doc|
    ensures TokenAt(doc, pos) == Token(Comment, pos, end)
            <==> IsBlockComment(doc, pos, end) || IsOpenComment(doc, pos, end) || IsLineComment(doc, pos, end)
  {
    if doc[pos] == SLASH && pos + 1 < |doc| {
      if doc[pos + 1] == STAR {
        BlockEnds(doc, pos + 2, end);
      } else if doc[pos + 1] == SLASH {
        LineScanEnds(doc, pos + 2, end);
      }
    }
  }

  // ---------- keywords and symbols ----------

  lemma KeywordLexeme(doc: bytes, pos: nat, first: byte, rest: bytes)
    ensures At(doc, pos, [first] + rest) <==> pos < |doc| && doc[pos] == first && At(doc, pos + 1, rest)
  {
    AtSplit(doc, pos, [first], rest);
    if At(doc, pos, [first]) { AtFirst(doc, pos, [first]); }
  }

  lemma KeywordLexemes(doc: bytes, pos: nat, end: nat)
    requires pos < |doc|
    ensures TokenAt(doc, pos) == Token(TrueToken, pos, end) <==> IsLexeme(doc, pos, end, TrueToken)
    ensures TokenAt(doc, pos) == Token(FalseToken, pos, end) <==> IsLexeme(doc, pos, end, FalseToken)
    ensures TokenAt(doc, pos) == Token(NullToken, pos, end) <==> IsLexeme(doc, pos, end, NullToken)
  {
    KeywordLexeme(doc, pos, LETTER_T, RUE);
    KeywordLexeme(doc, pos, LETTER_F, ALSE);
    KeywordLexeme(doc, pos, LETTER_N, ULL);
    assert [LETTER_T] + RUE == [0x74, 0x72, 0x75, 0x65];
    assert [LETTER_F] + ALSE == [0x66, 0x61, 0x6C, 0x73, 0x65];
    assert [LETTER_N] + ULL == [0x6E, 0x75, 0x6C, 0x6C];
  }

  // ---------- all tokens ----------

  /** At a character that is not a space a token of a kind other than error ends exactly where its text does. */
  lemma TokensAreLexemes(doc: bytes, pos: nat, end: nat, kind: TokenType)
    requires pos < |doc| && kind != ErrorToken
    ensures TokenAt(doc, pos) == Token(kind, pos, end) <==> IsLexeme(doc, pos, end, kind)
  {
    match kind
    case StringToken => StringLexeme(doc, pos, end);
    case NumberToken => NumberTokens(doc, pos, end);
    case Comment => CommentLexeme(doc, pos, end);
    case TrueToken => KeywordLexemes(doc, pos, end);
    case FalseToken => KeywordLexemes(doc, pos, end);
    case NullToken => KeywordLexemes(doc, pos, end);
    case _ =>
  }

  /** A token is read from the first character that is not a space, tab, line feed or carriage return. */
  lemma {:induction false} SpacesAreSkipped(doc: bytes, pos: nat, start: nat)
    requires pos <= |doc|
    ensures SkipSpaces(doc, pos) == start
            <==> pos <= start <= |doc| && (forall i | pos <= i < start :: doc[i] in {0x20, 0x09, 0x0A, 0x0D})
                 && (start < |doc| ==> doc[start] !in {0x20, 0x09, 0x0A, 0x0D})
    decreases |doc| - pos
  {
    if pos < |doc| && IsSpace(doc[pos]) {
      SpacesAreSkipped(doc, pos + 1, start);
    }
  }
}
