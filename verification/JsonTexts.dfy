/**
 Texts in a document: which tokens they are wherever they stand, and how trees
 are put together from the texts of their parts.
 */
module JsonTexts {
  import opened Wrappers
  import opened Bytes
  import opened JsonNumberTexts
  import opened JsonStrings
  import opened JsonValue
  import opened JsonWriter
  import opened JsonLexer
  import opened JsonNumberTokens
  import opened JsonGrammar
  import opened JsonTrees

  // ---------- tokens ----------

  /** The source is the tokenized document, whatever the conversion to double. */
  ghost predicate Lexes(src: Source, doc: bytes) {
    exists toDouble: bytes -> Option<real> :: Tokenizes(src, toDouble, doc)
  }

  lemma DocumentLexes(toDouble: bytes -> Option<real>, doc: bytes)
    ensures Lexes(SourceOf(toDouble, doc), doc)
  {
    DocumentIsTokenized(toDouble, doc);
  }

  lemma TokenHere(src: Source, doc: bytes, pos: nat)
    requires Lexes(src, doc) && pos < |doc| && !IsSpace(doc[pos])
    ensures src.size == |doc| && src.token(pos) == TokenAt(doc, pos)
  {
    assert src.token(pos) == ReadToken(doc, pos);
  }

  lemma SpaceHere(src: Source, doc: bytes, pos: nat)
    requires Lexes(src, doc) && pos < |doc| && IsSpace(doc[pos])
    ensures src.token(pos) == src.token(pos + 1)
  {
    assert src.token(pos) == ReadToken(doc, pos) == ReadToken(doc, pos + 1) == src.token(pos + 1);
  }

  lemma TextHere(src: Source, doc: bytes, pos: nat)
    requires Lexes(src, doc) && pos < |doc| && !IsSpace(doc[pos])
    ensures src.text(TokenAt(doc, pos)) == DecodeStringToken(doc, TokenAt(doc, pos))
  {
    assert src.text(ReadToken(doc, pos)) == DecodeStringToken(doc, ReadToken(doc, pos));
  }

  lemma NumberRead(src: Source, toDouble: bytes -> Option<real>, doc: bytes, pos: nat, t: Token)
    requires Tokenizes(src, toDouble, doc) && pos <= |doc| && ReadToken(doc, pos) == t
    ensures src.number(t) == DecodeNumberToken(toDouble, doc, t)
  {
    assert src.number(ReadToken(doc, pos)) == DecodeNumberToken(toDouble, doc, ReadToken(doc, pos));
  }

  function SymbolToken(c: byte): TokenType {
    if c == COMMA then ArraySeparator else if c == COLON then MemberSeparator
    else if c == LBRACKET then ArrayBegin else if c == RBRACKET then ArrayEnd
    else if c == LBRACE then ObjectBegin else ObjectEnd
  }

  lemma SymbolHere(src: Source, doc: bytes, pos: nat, c: byte)
    requires Lexes(src, doc) && pos < |doc| && doc[pos] == c && c in {COMMA, COLON, LBRACKET, RBRACKET, LBRACE, RBRACE}
    ensures src.token(pos) == Token(SymbolToken(c), pos, pos + 1)
  {
    TokenHere(src, doc, pos);
  }

  lemma KeywordHere(doc: bytes, pos: nat, first: byte, rest: bytes)
    requires At(doc, pos, [first] + rest)
    ensures pos < |doc| && doc[pos] == first && At(doc, pos + 1, rest)
  {
    AtSplit(doc, pos, [first], rest);
    AtFirst(doc, pos, [first] + rest);
  }

  lemma KeywordShows(src: Source, doc: bytes, pos: nat, text: bytes)
    requires Lexes(src, doc)
    requires text in {NULL_TEXT, TRUE_TEXT, FALSE_TEXT} && At(doc, pos, text)
    ensures src.token(pos)
            == Token(if text == NULL_TEXT then NullToken else if text == TRUE_TEXT then TrueToken else FalseToken,
                     pos, pos + |text|)
  {
    assert [text[0]] + text[1..] == text;
    KeywordHere(doc, pos, text[0], text[1..]);
    TokenHere(src, doc, pos);
  }

  // ---------- numbers ----------

  lemma NumberTokenIs(src: Source, toDouble: bytes -> Option<real>, doc: bytes, pos: nat, text: bytes)
    returns (t: Token)
    requires Tokenizes(src, toDouble, doc) && IsNumber(text) && text != []
    requires At(doc, pos, text) && Delimited(doc, pos + |text|)
    ensures t == Token(NumberToken, pos, pos + |text|) && src.token(pos) == t && t.end <= |doc| == src.size
    ensures src.number(t) == DecodeNumberText(toDouble, text)
  {
    t := Token(NumberToken, pos, pos + |text|);
    NumberHere(doc, pos, text);
    TokenDenotes(src, toDouble, doc, pos, text, t);
  }

  lemma TokenDenotes(src: Source, toDouble: bytes -> Option<real>, doc: bytes, pos: nat, text: bytes, t: Token)
    requires Tokenizes(src, toDouble, doc) && text != [] && At(doc, pos, text) && t.start == pos && t.end == pos + |text|
    requires !IsSpace(doc[pos]) && TokenAt(doc, pos) == t
    ensures src.token(pos) == t && t.end <= |doc| == src.size
    ensures src.number(t) == DecodeNumberText(toDouble, text)
  {
    TokenHere(src, doc, pos);
    AtSlice(doc, pos, text);
    var number := DecodeToken(toDouble, doc, t, text);
    NumberRead(src, toDouble, doc, pos, t);
  }

  lemma DecodeToken(toDouble: bytes -> Option<real>, doc: bytes, t: Token, text: bytes) returns (number: Option<Value>)
    requires t.start < t.end <= |doc| && doc[t.start..t.end] == text && text != []
    ensures number == DecodeNumberToken(toDouble, doc, t) == DecodeNumberText(toDouble, text)
  {
    number := DecodeNumberText(toDouble, text);
  }

  lemma NumberTokenIsRead(f: Features, src: Source, pos: nat, depth: nat, v: Value, errors: seq<Error>, t: Token,
                          number: Option<Value>)
    requires src.Forward() && pos <= src.size && depth <= STACK_LIMIT
    requires src.token(pos) == t && t.kind == NumberToken && src.number(t) == number
    ensures ReadValue(f, src, pos, depth, v, errors)
            == match number
               case Some(x) => Done(true, x, t.end, errors)
               case None => Done(false, v, t.end, errors + [Error(t)])
  {
    assert src.Ahead(pos, t);
    assert SkipCommentTokens(f, src, pos) == t;
  }

  /** A number is read as the integer it denotes, or as what the conversion makes of its whole text. */
  lemma NumberIsRead(f: Features, src: Source, toDouble: bytes -> Option<real>, doc: bytes, pos: nat, n: Parts,
                     depth: nat, v: Value, errors: seq<Error>)
    requires src.Forward() && Tokenizes(src, toDouble, doc) && depth <= STACK_LIMIT
    requires n.Proper() && At(doc, pos, n.Text()) && Delimited(doc, pos + |n.Text()|)
    ensures var t := Token(NumberToken, pos, pos + |n.Text()|);
            && src.token(pos) == t && t.end <= src.size
            && ReadValue(f, src, pos, depth, v, errors)
               == match Denoted(toDouble, n)
                  case Some(x) => Done(true, x, t.end, errors)
                  case None => Done(false, v, t.end, errors + [Error(t)])
  {
    var t := NumberTokenIs(src, toDouble, doc, pos, n.Text());
    NumberDenotes(toDouble, n);
    NumberTokenIsRead(f, src, pos, depth, v, errors, t, Denoted(toDouble, n));
  }

  // ---------- trees shown by texts ----------

  /** The blanks of RFC 8259, section 2: space, tab, line feed and carriage return. */
  predicate Blank(b: bytes) {
    forall i | 0 <= i < |b| :: b[i] == 0x20 || b[i] == 0x09 || b[i] == 0x0A || b[i] == 0x0D
  }

  /** Wherever the text stands in the document, properly delimited, it spells the tree, but for `tail` blanks behind it. */
  ghost predicate ShownBy(src: Source, doc: bytes, text: bytes, tail: nat, t: Tree) {
    tail <= |text| && forall pos: nat {:trigger At(doc, pos, text)} ::
      At(doc, pos, text) && Delimited(doc, pos + |text|) ==>
        Spells(src, pos, t, pos + |text| - tail) && src.token(pos + |text| - tail) == src.token(pos + |text|)
  }

  ghost predicate MemberShownBy(src: Source, doc: bytes, text: bytes, tail: nat, m: Member) {
    tail <= |text| && forall pos: nat {:trigger At(doc, pos, text)} ::
      At(doc, pos, text) && Delimited(doc, pos + |text|) ==>
        SpellsMember(src, pos, m, pos + |text| - tail) && src.token(pos + |text| - tail) == src.token(pos + |text|)
  }

  /** Wherever the text stands it is one string token. */
  ghost predicate StringShownBy(src: Source, doc: bytes, text: bytes, s: bytes) {
    forall pos: nat {:trigger At(doc, pos, text)} :: At(doc, pos, text) ==> StringAt(src, pos, pos + |text|, s)
  }

  predicate StringAt(src: Source, pos: nat, end: nat, s: bytes) {
    pos <= end && src.token(pos) == Token(StringToken, pos, end) && src.text(Token(StringToken, pos, end)) == Some(s)
  }

  lemma NumberIsShown(src: Source, toDouble: bytes -> Option<real>, doc: bytes, text: bytes, number: Option<Value>)
    requires Tokenizes(src, toDouble, doc) && IsNumber(text) && text != []
    requires number == DecodeNumberText(toDouble, text) && number.Some?
    ensures ShownBy(src, doc, text, 0, NumberT(number.value))
  {
    forall pos: nat | At(doc, pos, text) && Delimited(doc, pos + |text|)
      ensures Spells(src, pos, NumberT(number.value), pos + |text|)
    {
      var t := NumberTokenIs(src, toDouble, doc, pos, text);
    }
  }

  lemma KeywordIsShown(src: Source, doc: bytes, text: bytes)
    requires Lexes(src, doc) && text in {NULL_TEXT, TRUE_TEXT, FALSE_TEXT}
    ensures ShownBy(src, doc, text, 0, if text == NULL_TEXT then NullT else BoolT(text == TRUE_TEXT))
  {
    forall pos: nat | At(doc, pos, text)
      ensures Spells(src, pos, if text == NULL_TEXT then NullT else BoolT(text == TRUE_TEXT), pos + |text|)
    {
      KeywordShows(src, doc, pos, text);
    }
  }

  lemma StringIsShown(src: Source, doc: bytes, quoted: bytes, s: bytes)
    requires Lexes(src, doc) && forall pos: nat | At(doc, pos, quoted) :: ReadsAs(doc, pos, quoted, s)
    ensures StringShownBy(src, doc, quoted, s)
    ensures ShownBy(src, doc, quoted, 0, StringT(s))
  {
    forall pos: nat | At(doc, pos, quoted)
      ensures StringAt(src, pos, pos + |quoted|, s) && Spells(src, pos, StringT(s), pos + |quoted|)
    {
      StringTokenHere(doc, pos, quoted, s);
      TokenHere(src, doc, pos);
      TextHere(src, doc, pos);
    }
  }

  lemma StringTokenHere(doc: bytes, pos: nat, quoted: bytes, s: bytes)
    requires ReadsAs(doc, pos, quoted, s)
    ensures !IsSpace(doc[pos]) && TokenAt(doc, pos) == Token(StringToken, pos, pos + |quoted|)
    ensures DecodeStringToken(doc, TokenAt(doc, pos)) == Some(s)
  {
  }

  // ---------- blanks ----------

  lemma {:induction false} BlankPassed(src: Source, doc: bytes, pos: nat, b: bytes)
    requires Lexes(src, doc) && At(doc, pos, b) && Blank(b)
    ensures src.token(pos) == src.token(pos + |b|)
    decreases |b|
  {
    if b != [] {
      assert [b[0]] + b[1..] == b;
      KeywordHere(doc, pos, b[0], b[1..]);
      SpaceHere(src, doc, pos);
      BlankPassed(src, doc, pos + 1, b[1..]);
    }
  }

  lemma SpelledByToken(src: Source, pos: nat, pos': nat, t: Tree, end: nat)
    requires src.token(pos) == src.token(pos') && Spells(src, pos', t, end)
    ensures Spells(src, pos, t, end)
  {
  }

  /** A text between blanks. */
  function Padded(before: bytes, text: bytes, after: bytes): bytes {
    before + (text + after)
  }

  lemma DelimitedByBlank(doc: bytes, pos: nat, after: bytes)
    requires At(doc, pos, after) && Blank(after) && Delimited(doc, pos + |after|)
    ensures Delimited(doc, pos)
  {
    if after != [] { AtFirst(doc, pos, after); }
  }

  lemma PaddedIsShown(src: Source, doc: bytes, before: bytes, text: bytes, after: bytes, t: Tree)
    requires Lexes(src, doc) && Blank(before) && Blank(after) && ShownBy(src, doc, text, 0, t)
    ensures ShownBy(src, doc, Padded(before, text, after), |after|, t)
  {
    var whole := Padded(before, text, after);
    forall pos: nat | At(doc, pos, whole) && Delimited(doc, pos + |whole|)
      ensures Spells(src, pos, t, pos + |whole| - |after|)
      ensures src.token(pos + |whole| - |after|) == src.token(pos + |whole|)
    {
      var p, q := pos + |before|, pos + |before| + |text|;
      AtSplit(doc, pos, before, text + after);
      AtSplit(doc, p, text, after);
      DelimitedByBlank(doc, q, after);
      BlankPassed(src, doc, pos, before);
      BlankPassed(src, doc, q, after);
      SpelledByToken(src, pos, p, t, q);
    }
  }

  // ---------- containers ----------

  lemma {:induction false} JoinFront(texts: seq<bytes>)
    requires |texts| > 1
    ensures Join(texts) == texts[0] + ([COMMA] + Join(texts[1..]))
  {
    var n := |texts| - 1;
    if n > 1 {
      JoinFront(texts[..n]);
      assert texts[..n][1..] == texts[1..][..n - 1];
      Associative(texts[0], [COMMA] + Join(texts[1..n]), [COMMA] + texts[n]);
      Associative([COMMA], Join(texts[1..n]), [COMMA] + texts[n]);
      assert texts[1..][..n - 1] == texts[1..n] && texts[1..][n - 1] == texts[n];
    } else {
      assert texts[..1] == [texts[0]] && texts[1..] == [texts[1]];
    }
  }

  /** Joined texts and a closing bracket, taken apart behind the first text. */
  lemma JoinSplit(doc: bytes, pos: nat, texts: seq<bytes>, close: byte)
    requires texts != [] && At(doc, pos, Join(texts) + [close])
    ensures At(doc, pos, texts[0])
    ensures var q := pos + |texts[0]|;
            && q < |doc| && doc[q] == (if |texts| == 1 then close else COMMA)
            && (|texts| > 1 ==> At(doc, q + 1, Join(texts[1..]) + [close])
                                && |Join(texts)| == |texts[0]| + 1 + |Join(texts[1..])|)
            && (|texts| == 1 ==> |Join(texts)| == |texts[0]|)
  {
    if |texts| == 1 {
      AtSplit(doc, pos, texts[0], [close]);
      AtFirst(doc, pos + |texts[0]|, [close]);
    } else {
      var rest := Join(texts[1..]);
      JoinFront(texts);
      Associative(texts[0], [COMMA] + rest, [close]);
      Associative([COMMA], rest, [close]);
      AtSplit(doc, pos, texts[0], [COMMA] + (rest + [close]));
      KeywordHere(doc, pos + |texts[0]|, COMMA, rest + [close]);
    }
  }

  lemma {:induction false} ItemsShow(src: Source, doc: bytes, pos: nat, texts: seq<bytes>, tails: seq<nat>,
                                     items: seq<Tree>)
    requires Lexes(src, doc) && items != [] && |texts| == |tails| == |items|
    requires forall j | 0 <= j < |items| :: ShownBy(src, doc, texts[j], tails[j], items[j])
    requires At(doc, pos, Join(texts) + [RBRACKET])
    ensures SpellsItems(src, pos, items, pos + |Join(texts)| + 1)
    decreases |items|
  {
    var e := pos + |texts[0]|;
    JoinSplit(doc, pos, texts, RBRACKET);
    assert ShownBy(src, doc, texts[0], tails[0], items[0]);
    var q := e - tails[0];
    assert Spells(src, pos, items[0], q) && src.token(q) == src.token(e);
    SymbolHere(src, doc, e, doc[e]);
    TokenHere(src, doc, e);
    if |items| > 1 {
      ItemsShow(src, doc, e + 1, texts[1..], tails[1..], items[1..]);
    }
    assert SpellsItemsVia(src, pos, items, pos + |Join(texts)| + 1, q);
  }

  lemma {:induction false} MembersShow(src: Source, doc: bytes, pos: nat, texts: seq<bytes>, tails: seq<nat>,
                                       members: seq<Member>)
    requires Lexes(src, doc) && members != [] && |texts| == |tails| == |members|
    requires forall j | 0 <= j < |members| :: MemberShownBy(src, doc, texts[j], tails[j], members[j])
    requires At(doc, pos, Join(texts) + [RBRACE])
    ensures SpellsMembers(src, pos, members, pos + |Join(texts)| + 1)
    decreases |members|
  {
    var e := pos + |texts[0]|;
    JoinSplit(doc, pos, texts, RBRACE);
    assert MemberShownBy(src, doc, texts[0], tails[0], members[0]);
    var q := e - tails[0];
    assert SpellsMember(src, pos, members[0], q) && src.token(q) == src.token(e);
    SymbolHere(src, doc, e, doc[e]);
    TokenHere(src, doc, e);
    if |members| > 1 {
      MembersShow(src, doc, e + 1, texts[1..], tails[1..], members[1..]);
    }
    assert SpellsMembersVia(src, pos, members, pos + |Join(texts)| + 1, q);
  }

  /** A bracketed text, taken apart behind the opening bracket. */
  lemma OpenHere(src: Source, doc: bytes, pos: nat, open: byte, inner: bytes, close: byte)
    requires Lexes(src, doc) && open in {LBRACKET, LBRACE} && At(doc, pos, [open] + inner + [close])
    ensures src.token(pos) == Token(SymbolToken(open), pos, pos + 1) && At(doc, pos + 1, inner + [close])
  {
    Associative([open], inner, [close]);
    KeywordHere(doc, pos, open, inner + [close]);
    SymbolHere(src, doc, pos, open);
  }

  /** Nothing but blanks between brackets. */
  lemma CloseHere(src: Source, doc: bytes, pos: nat, open: byte, blank: bytes, close: byte)
    requires Lexes(src, doc) && open in {LBRACKET, LBRACE} && close in {RBRACKET, RBRACE} && Blank(blank)
    requires At(doc, pos, [open] + blank + [close])
    ensures src.token(pos) == Token(SymbolToken(open), pos, pos + 1)
    ensures src.token(pos + 1) == Token(SymbolToken(close), pos + 1 + |blank|, pos + 2 + |blank|)
  {
    OpenHere(src, doc, pos, open, blank, close);
    AtSplit(doc, pos + 1, blank, [close]);
    AtFirst(doc, pos + 1 + |blank|, [close]);
    BlankPassed(src, doc, pos + 1, blank);
    SymbolHere(src, doc, pos + 1 + |blank|, close);
  }

  lemma EmptyIsShown(src: Source, doc: bytes, blank: bytes)
    requires Lexes(src, doc) && Blank(blank)
    ensures ShownBy(src, doc, [LBRACKET] + blank + [RBRACKET], 0, ArrayT([]))
    ensures ShownBy(src, doc, [LBRACE] + blank + [RBRACE], 0, ObjectT([]))
  {
    forall pos: nat | At(doc, pos, [LBRACKET] + blank + [RBRACKET])
      ensures Spells(src, pos, ArrayT([]), pos + |blank| + 2)
    {
      CloseHere(src, doc, pos, LBRACKET, blank, RBRACKET);
    }
    forall pos: nat | At(doc, pos, [LBRACE] + blank + [RBRACE])
      ensures Spells(src, pos, ObjectT([]), pos + |blank| + 2)
    {
      CloseHere(src, doc, pos, LBRACE, blank, RBRACE);
    }
  }

  lemma BracketedIsShown(src: Source, doc: bytes, texts: seq<bytes>, tails: seq<nat>, items: seq<Tree>)
    requires Lexes(src, doc) && |texts| == |tails| == |items|
    requires forall j | 0 <= j < |items| :: ShownBy(src, doc, texts[j], tails[j], items[j])
    ensures ShownBy(src, doc, [LBRACKET] + Join(texts) + [RBRACKET], 0, ArrayT(items))
  {
    if items == [] {
      assert Join(texts) == [];
      EmptyIsShown(src, doc, []);
    } else {
      forall pos: nat | At(doc, pos, [LBRACKET] + Join(texts) + [RBRACKET])
        ensures Spells(src, pos, ArrayT(items), pos + |Join(texts)| + 2)
      {
        OpenHere(src, doc, pos, LBRACKET, Join(texts), RBRACKET);
        ItemsShow(src, doc, pos + 1, texts, tails, items);
      }
    }
  }

  lemma BracedIsShown(src: Source, doc: bytes, texts: seq<bytes>, tails: seq<nat>, members: seq<Member>)
    requires Lexes(src, doc) && |texts| == |tails| == |members|
    requires forall j | 0 <= j < |members| :: MemberShownBy(src, doc, texts[j], tails[j], members[j])
    ensures ShownBy(src, doc, [LBRACE] + Join(texts) + [RBRACE], 0, ObjectT(members))
  {
    if members == [] {
      assert Join(texts) == [];
      EmptyIsShown(src, doc, []);
    } else {
      forall pos: nat | At(doc, pos, [LBRACE] + Join(texts) + [RBRACE])
        ensures Spells(src, pos, ObjectT(members), pos + |Join(texts)| + 2)
      {
        OpenHere(src, doc, pos, LBRACE, Join(texts), RBRACE);
        MembersShow(src, doc, pos + 1, texts, tails, members);
      }
    }
  }

  // ---------- members ----------

  /** A name between blanks, the colon, and what is behind it. */
  function MemberLayout(before: bytes, name: bytes, gap: bytes, value: bytes): bytes {
    before + (name + (gap + ([COLON] + value)))
  }

  lemma LayoutSplit(doc: bytes, pos: nat, before: bytes, name: bytes, gap: bytes, value: bytes)
    returns (p: nat, q: nat, r: nat)
    requires At(doc, pos, MemberLayout(before, name, gap, value))
    ensures p == pos + |before| && q == p + |name| && r == q + |gap|
    ensures r + 1 + |value| == pos + |MemberLayout(before, name, gap, value)|
    ensures At(doc, pos, before) && At(doc, p, name) && At(doc, q, gap) && At(doc, r + 1, value)
    ensures r < |doc| && doc[r] == COLON
  {
    p, q, r := pos + |before|, pos + |before| + |name|, pos + |before| + |name| + |gap|;
    AtSplit(doc, pos, before, name + (gap + ([COLON] + value)));
    AtSplit(doc, p, name, gap + ([COLON] + value));
    AtSplit(doc, q, gap, [COLON] + value);
    KeywordHere(doc, r, COLON, value);
  }

  lemma MemberByParts(src: Source, pos: nat, m: Member, name: Token, colon: Token, end: nat)
    requires src.token(pos) == name && name.kind == StringToken && src.text(name) == Some(m.name)
    requires src.token(name.end) == colon && colon.kind == MemberSeparator && colon.end <= end
    requires Spells(src, colon.end, m.value, end)
    ensures SpellsMember(src, pos, m, end)
  {
  }

  lemma MemberShows(src: Source, doc: bytes, pos: nat, before: bytes, name: bytes, gap: bytes, value: bytes, tail: nat,
                    m: Member)
    requires Lexes(src, doc) && Blank(before) && Blank(gap)
    requires StringShownBy(src, doc, name, m.name) && ShownBy(src, doc, value, tail, m.value)
    requires At(doc, pos, MemberLayout(before, name, gap, value))
    requires Delimited(doc, pos + |MemberLayout(before, name, gap, value)|)
    ensures var end := pos + |MemberLayout(before, name, gap, value)|;
            tail <= end && SpellsMember(src, pos, m, end - tail) && src.token(end - tail) == src.token(end)
  {
    var p, q, r := LayoutSplit(doc, pos, before, name, gap, value);
    var end := r + 1 + |value|;
    assert StringAt(src, p, q, m.name);
    BlankPassed(src, doc, pos, before);
    BlankPassed(src, doc, q, gap);
    SymbolHere(src, doc, r, COLON);
    MemberByParts(src, pos, m, Token(StringToken, p, q), Token(MemberSeparator, r, r + 1), end - tail);
  }

  lemma MemberIsShown(src: Source, doc: bytes, before: bytes, name: bytes, gap: bytes, value: bytes, tail: nat,
                      m: Member)
    requires Lexes(src, doc) && Blank(before) && Blank(gap)
    requires StringShownBy(src, doc, name, m.name) && ShownBy(src, doc, value, tail, m.value)
    ensures MemberShownBy(src, doc, MemberLayout(before, name, gap, value), tail, m)
  {
    var text := MemberLayout(before, name, gap, value);
    forall pos: nat | At(doc, pos, text) && Delimited(doc, pos + |text|)
      ensures SpellsMember(src, pos, m, pos + |text| - tail) && src.token(pos + |text| - tail) == src.token(pos + |text|)
    {
      MemberShows(src, doc, pos, before, name, gap, value, tail, m);
    }
  }
}
