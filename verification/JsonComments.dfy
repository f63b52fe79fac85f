/** Spaces and comments in front of a document. */
module JsonComments {
  import opened Wrappers
  import opened Bytes
  import opened JsonStrings
  import opened JsonValue
  import opened JsonWriter
  import opened JsonLexer
  import opened JsonGrammar
  import opened JsonTrees
  import opened JsonTexts
  import opened JsonRoundTrip

  /** A C comment around a text in which, with the closing star behind it, no star is followed by a slash. */
  predicate IsCComment(c: bytes) {
    && |c| >= 4 && c[..2] == [SLASH, STAR] && c[|c| - 2..] == [STAR, SLASH]
    && forall i | 2 <= i < |c| - 2 :: !(c[i] == STAR && c[i + 1] == SLASH)
  }

  /** A comment to the end of the line. */
  predicate IsLineComment(c: bytes) {
    && |c| >= 3 && c[..2] == [SLASH, SLASH] && c[|c| - 1] == LINE_FEED
    && forall i | 2 <= i < |c| - 1 :: c[i] != LINE_FEED && c[i] != RETURN
  }

  predicate IsComment(c: bytes) {
    IsCComment(c) || IsLineComment(c)
  }

  /** A space or a comment. */
  predicate IsBlank(b: bytes) {
    (|b| == 1 && IsSpace(b[0])) || IsComment(b)
  }

  // ---------- comment tokens ----------

  lemma {:induction false} CStyleEnd(doc: bytes, pos: nat, end: nat)
    requires pos + 2 <= end <= |doc| && doc[end - 2] == STAR && doc[end - 1] == SLASH
    requires forall i | pos <= i < end - 2 :: !(doc[i] == STAR && doc[i + 1] == SLASH)
    ensures CStyleComment(doc, pos) == Scan(end, true)
    decreases end - pos
  {
    if pos + 2 < end {
      CStyleEnd(doc, pos + 1, end);
    }
  }

  lemma {:induction false} CppStyleEnd(doc: bytes, pos: nat, end: nat)
    requires pos < end <= |doc| && doc[end - 1] == LINE_FEED
    requires forall i | pos <= i < end - 1 :: doc[i] != LINE_FEED && doc[i] != RETURN
    ensures CppStyleComment(doc, pos) == end
    decreases end - pos
  {
    if pos + 1 < end {
      CppStyleEnd(doc, pos + 1, end);
    }
  }

  /** A comment is one token, wherever it stands. */
  lemma CommentHere(doc: bytes, pos: nat, c: bytes)
    requires IsComment(c) && At(doc, pos, c)
    ensures pos < |doc| && !IsSpace(doc[pos]) && TokenAt(doc, pos) == Token(Comment, pos, pos + |c|)
  {
    assert c[0] == c[..2][0] && c[1] == c[..2][1];
    assert doc[pos + 0] == c[0] && doc[pos + 1] == c[1];
    var end := pos + |c|;
    forall i | 2 <= i < |c| ensures doc[pos + i] == c[i] {}
    if IsCComment(c) {
      assert c[|c| - 2..][0] == c[|c| - 2] && c[|c| - 2..][1] == c[|c| - 1];
      forall i | pos + 2 <= i < end - 2 ensures !(doc[i] == STAR && doc[i + 1] == SLASH) {
        assert doc[i] == c[i - pos] && doc[i + 1] == c[i + 1 - pos];
      }
      CStyleEnd(doc, pos + 2, end);
    } else {
      forall i | pos + 2 <= i < end - 1 ensures doc[i] != LINE_FEED && doc[i] != RETURN {
        assert doc[i] == c[i - pos];
      }
      CppStyleEnd(doc, pos + 2, end);
    }
  }

  // ---------- reading past them ----------

  lemma SpacePassed(f: Features, src: Source, doc: bytes, pos: nat, depth: nat, v: Value, errors: seq<Error>)
    requires src.Forward() && Lexes(src, doc) && pos < |doc| && IsSpace(doc[pos])
    ensures src.size == |doc| && ReadValue(f, src, pos, depth, v, errors) == ReadValue(f, src, pos + 1, depth, v, errors)
  {
    SpaceHere(src, doc, pos);
    assert SkipCommentTokens(f, src, pos) == SkipCommentTokens(f, src, pos + 1);
  }

  /** A comment in front of a value is passed over if comments are allowed, and is the value's error if they are not. */
  lemma CommentPassed(f: Features, src: Source, doc: bytes, pos: nat, c: bytes, depth: nat, v: Value,
                      errors: seq<Error>)
    requires src.Forward() && Lexes(src, doc) && IsComment(c) && At(doc, pos, c)
    ensures f.allowComments ==>
              ReadValue(f, src, pos, depth, v, errors) == ReadValue(f, src, pos + |c|, depth, v, errors)
    ensures !f.allowComments && depth <= STACK_LIMIT ==>
              ReadValue(f, src, pos, depth, v, errors)
              == Done(false, v, pos + |c|, errors + [Error(Token(Comment, pos, pos + |c|))])
  {
    CommentHere(doc, pos, c);
    TokenHere(src, doc, pos);
    var t := Token(Comment, pos, pos + |c|);
    assert src.token(pos) == t;
    if f.allowComments {
      assert PastComments(src, pos) == PastComments(src, t.end);
      assert SkipCommentTokens(f, src, pos) == SkipCommentTokens(f, src, t.end);
    } else {
      assert SkipCommentTokens(f, src, pos) == t;
    }
  }

  /** Spaces and comments are passed over to the value behind them, read with outcome r. */
  lemma {:induction false} BlanksPassed(f: Features, src: Source, doc: bytes, pos: nat, pieces: seq<bytes>,
                                        depth: nat, v: Value, errors: seq<Error>, r: Outcome)
    requires src.Forward() && Lexes(src, doc) && f.allowComments
    requires (forall b | b in pieces :: IsBlank(b)) && At(doc, pos, Concat(pieces))
    requires pos + |Concat(pieces)| <= src.size && r == ReadValue(f, src, pos + |Concat(pieces)|, depth, v, errors)
    ensures ReadValue(f, src, pos, depth, v, errors) == r
    decreases |pieces|
  {
    if pieces != [] {
      var b := pieces[0];
      assert b in pieces;
      AtSplit(doc, pos, b, Concat(pieces[1..]));
      BlanksPassed(f, src, doc, pos + |b|, pieces[1..], depth, v, errors, r);
      if IsComment(b) {
        CommentPassed(f, src, doc, pos, b, depth, v, errors);
      } else {
        AtFirst(doc, pos, b);
        SpacePassed(f, src, doc, pos, depth, v, errors);
      }
    }
  }

  // ---------- the round trip behind spaces and comments ----------

  lemma ShownBehindBlanks(f: Features, src: Source, doc: bytes, pieces: seq<bytes>, v: Value, was: Value, end: nat)
    requires src.Forward() && Lexes(src, doc) && f.allowComments && Valid(v)
    requires (forall b | b in pieces :: IsBlank(b)) && At(doc, 0, Concat(pieces))
    requires |Concat(pieces)| <= src.size && Spells(src, |Concat(pieces)|, TreeOf(v), end)
    ensures var p := Parse(f, src, was);
            if Depth(v) > STACK_LIMIT then p == Threw(StackLimitExceeded)
            else p.Result? && p.root == Normal(v) && (p.ok <==> !f.strictRoot || Container(v))
  {
    var n := |Concat(pieces)|;
    BlanksPassed(f, src, doc, 0, pieces, 1, was, [], ReadValue(f, src, n, 1, was, []));
    NestingIsDepth(v);
    NormalContainer(v);
    TreeIsParsed(f, src, TreeOf(v), was, n, end);
  }

  lemma PrintedIsShownBehind(src: Source, toDouble: bytes -> Option<real>, st: Style, blanks: bytes, v: Value)
    requires Tokenizes(src, toDouble, blanks + Text(st, v)) && Printable(st, toDouble, v)
    ensures At(blanks + Text(st, v), 0, blanks)
    ensures Spells(src, |blanks|, TreeOf(v), |blanks + Text(st, v)|)
  {
    TextIsShown(src, toDouble, blanks + Text(st, v), st, v);
    assert At(blanks + Text(st, v), |blanks|, Text(st, v));
  }

  /** With comments allowed, spaces and comments in front of a printed value change nothing. */
  lemma RoundTripBehindBlanks(f: Features, toDouble: bytes -> Option<real>, st: Style, pieces: seq<bytes>, v: Value,
                              was: Value)
    requires Printable(st, toDouble, v) && f.allowComments && forall b | b in pieces :: IsBlank(b)
    ensures SourceOf(toDouble, Concat(pieces) + Text(st, v)).Forward()
    ensures var p := Parse(f, SourceOf(toDouble, Concat(pieces) + Text(st, v)), was);
            if Depth(v) > STACK_LIMIT then p == Threw(StackLimitExceeded)
            else p.Result? && p.root == Normal(v) && (p.ok <==> !f.strictRoot || Container(v))
  {
    var doc := Concat(pieces) + Text(st, v);
    var src := SourceOf(toDouble, doc);
    DocumentIsTokenized(toDouble, doc);
    PrintedIsShownBehind(src, toDouble, st, Concat(pieces), v);
    ShownBehindBlanks(f, src, doc, pieces, v, was, |doc|);
  }

  /** With comments not allowed, a document that begins with one is refused. */
  lemma CommentsRefused(f: Features, toDouble: bytes -> Option<real>, c: bytes, rest: bytes, was: Value)
    requires !f.allowComments && IsComment(c)
    ensures SourceOf(toDouble, c + rest).Forward()
    ensures var p := Parse(f, SourceOf(toDouble, c + rest), was); p.Result? && !p.ok && p.root == was
  {
    DocumentIsForward(toDouble, c + rest);
    DocumentLexes(toDouble, c + rest);
    CommentPassed(f, SourceOf(toDouble, c + rest), c + rest, 0, c, 1, was, []);
  }

  // ---------- where comments are not transparent ----------

  /** The tokens of an empty array with a comment inside. */
  ghost predicate CommentedArray(src: Source, n: nat) {
    && src.Forward() && src.size == n + 2
    && src.token(0) == Token(ArrayBegin, 0, 1) && src.token(1) == Token(Comment, 1, n + 1)
    && src.token(n + 1) == Token(ArrayEnd, n + 1, n + 2)
  }

  lemma CommentedArrayTokens(toDouble: bytes -> Option<real>, c: bytes)
    requires IsComment(c)
    ensures CommentedArray(SourceOf(toDouble, [LBRACKET] + c + [RBRACKET]), |c|)
  {
    var doc := [LBRACKET] + c + [RBRACKET];
    var src := SourceOf(toDouble, doc);
    DocumentIsForward(toDouble, doc);
    DocumentLexes(toDouble, doc);
    assert doc[0] == LBRACKET && doc[|c| + 1] == RBRACKET;
    SymbolHere(src, doc, 0, LBRACKET);
    SymbolHere(src, doc, |c| + 1, RBRACKET);
    assert At(doc, 1, c);
    CommentHere(doc, 1, c);
    TokenHere(src, doc, 1);
  }

  lemma CommentedArrayElement(f: Features, src: Source, n: nat)
    requires CommentedArray(src, n) && f.allowComments
    ensures var errors := [Error(Token(ArrayEnd, n + 1, n + 2))];
            ReadValue(f, src, 1, 2, NullV, [])
            == if f.allowDroppedNullPlaceholders then Done(true, NullV, n + 1, []) else Done(false, NullV, n + 2, errors)
  {
    var t := Token(ArrayEnd, n + 1, n + 2);
    assert PastComments(src, 1) == PastComments(src, n + 1) == t;
    assert SkipCommentTokens(f, src, 1) == t;
  }

  lemma CommentedArrayIsParsed(f: Features, src: Source, n: nat, was: Value)
    requires CommentedArray(src, n) && f.allowComments
    ensures var p := Parse(f, src, was);
            && p.Result? && p.root == ArrayV([Entry(Index(0), NullV)])
            && (p.ok <==> f.allowDroppedNullPlaceholders)
  {
    CommentedArrayElement(f, src, n);
    assert Put([], Index(0), NullV) == [Entry(Index(0), NullV)];
    assert PastComments(src, n + 1) == Token(ArrayEnd, n + 1, n + 2);
    var r := ReadElements(f, src, 1, 1, [], 0, []);
    assert r.Done? && r.value == ArrayV([Entry(Index(0), NullV)]) && r.ok == f.allowDroppedNullPlaceholders;
    assert ReadValue(f, src, 0, 1, was, []) == ReadFrom(f, src, src.token(0), 1, was, []) == r;
  }

  /**
   The test for an empty array looks past spaces only: with a comment inside, it is
   refused, or read as an array of one null if dropped placeholders are allowed.
   */
  lemma CommentInEmptyArray(f: Features, toDouble: bytes -> Option<real>, c: bytes, was: Value)
    requires IsComment(c) && f.allowComments
    ensures SourceOf(toDouble, [LBRACKET] + c + [RBRACKET]).Forward()
    ensures var p := Parse(f, SourceOf(toDouble, [LBRACKET] + c + [RBRACKET]), was);
            && p.Result? && p.root == ArrayV([Entry(Index(0), NullV)])
            && (p.ok <==> f.allowDroppedNullPlaceholders)
  {
    CommentedArrayTokens(toDouble, c);
    CommentedArrayIsParsed(f, SourceOf(toDouble, [LBRACKET] + c + [RBRACKET]), |c|, was);
  }
}
