/** Three documents and a comment: what the flag for comments does not decide. */
module JsonCommentCases {
  import opened Wrappers
  import opened Bytes
  import opened JsonStrings
  import opened JsonNumbers
  import opened JsonValue
  import opened JsonLexer
  import opened JsonGrammar
  import opened JsonComments
  import opened JsonAcceptance
  import opened JsonSplicing
  import opened JsonPlaces

  /** The document [0]. */
  const ONE_ELEMENT: bytes := [LBRACKET, ZERO, RBRACKET]

  /** The document {"":0}. */
  const ONE_MEMBER: bytes := [LBRACE, QUOTE, QUOTE, COLON, ZERO, RBRACE]

  /** The document {"":0:}. */
  const COLON_BEHIND: bytes := [LBRACE, QUOTE, QUOTE, COLON, ZERO, COLON, RBRACE]

  lemma ZeroIsRead()
    ensures DecodeInteger([ZERO]) == Some(Signed64(0))
  {
    IntegerRoundTrip(0);
    assert SignedDecimal(0) == [ZERO];
  }

  // ---------- behind an element ----------

  ghost predicate ElementTokens(src: Source) {
    && src.Forward() && src.size == 3
    && src.token(0) == Token(ArrayBegin, 0, 1) && src.token(1) == Token(NumberToken, 1, 2)
    && src.token(2) == Token(ArrayEnd, 2, 3) && src.number(Token(NumberToken, 1, 2)) == Some(IntV(0))
  }

  lemma ElementIsTokenized(toDouble: bytes -> Option<real>)
    ensures ElementTokens(SourceOf(toDouble, ONE_ELEMENT))
  {
    DocumentIsTokenized(toDouble, ONE_ELEMENT);
    assert DigitsEnd(ONE_ELEMENT, 2) == 2;
    assert ReadToken(ONE_ELEMENT, 0) == Token(ArrayBegin, 0, 1);
    assert ReadToken(ONE_ELEMENT, 1) == Token(NumberToken, 1, 2);
    assert ReadToken(ONE_ELEMENT, 2) == Token(ArrayEnd, 2, 3);
    assert ONE_ELEMENT[1..2] == [ZERO];
    ZeroIsRead();
  }

  lemma ElementIsRead(f: Features, src: Source)
    requires ElementTokens(src)
    ensures AcceptValue(f, src, 0, 1) == Some(Reading(ArrayV([Entry(Index(0), IntV(0))]), 3))
  {
    assert SkipCommentTokens(f, src, 0) == Token(ArrayBegin, 0, 1);
    assert SkipCommentTokens(f, src, 1) == Token(NumberToken, 1, 2);
    assert PastComments(src, 2) == Token(ArrayEnd, 2, 3);
    ElementRead(f, src, 1, 1, [], 0, Reading(IntV(0), 2));
    assert AcceptValue(f, src, 0, 1) == AcceptElements(f, src, 1, 1, [], 0);
    assert Put([], Index(0), IntV(0)) == [Entry(Index(0), IntV(0))];
  }

  lemma BehindElement(f: Features, src: Source)
    requires ElementTokens(src)
    ensures PlaceOf(f, src, 2) == BeforeSeparator
  {
    assert MeetPast(src, 0, 2) == MeetPast(src, 1, 2) == Passed && MeetPast(src, 2, 2) == Met;
    assert ValuePlace(f, src, 1, 2, 2) == Behind;
    assert SkipCommentTokens(f, src, 1) == Token(NumberToken, 1, 2);
    assert AcceptValue(f, src, 1, 2) == Some(Reading(IntV(0), 2));
    assert ElementsPlace(f, src, 1, 1, 2) == NextElementPlace(f, src, 2, 1, 2);
    assert PlaceOf(f, src, 2) == FromPlace(f, src, Token(ArrayBegin, 0, 1), 1, 2) == ElementsPlace(f, src, 1, 1, 2);
  }

  /** With comments not allowed, a comment behind an element is accepted all the same. */
  lemma CommentBehindElement(f: Features, toDouble: bytes -> Option<real>, c: bytes, was: Value)
    requires IsComment(c)
    ensures SourceOf(toDouble, Insert(ONE_ELEMENT, 2, c)).Forward()
    ensures Parse(f, SourceOf(toDouble, Insert(ONE_ELEMENT, 2, c)), was)
            == Result(true, ArrayV([Entry(Index(0), IntV(0))]), [])
  {
    var src := SourceOf(toDouble, ONE_ELEMENT);
    ElementIsTokenized(toDouble);
    ElementIsRead(f, src);
    BehindElement(f, src);
    ParseAccepts(f, src, was);
    InsertedComment(f, toDouble, ONE_ELEMENT, 2, c, was);
  }

  // ---------- in front of a colon ----------

  /** The tokens of an object that begins with a member named by the empty text. */
  ghost predicate MemberTokens(src: Source) {
    && src.Forward() && src.size >= 6
    && src.token(0) == Token(ObjectBegin, 0, 1) && src.token(1) == Token(StringToken, 1, 3)
    && src.token(3) == Token(MemberSeparator, 3, 4) && src.token(4) == Token(NumberToken, 4, 5)
    && src.text(Token(StringToken, 1, 3)) == Some([]) && src.number(Token(NumberToken, 4, 5)) == Some(IntV(0))
  }

  lemma MemberIsScanned(doc: bytes)
    requires doc == ONE_MEMBER || doc == COLON_BEHIND
    ensures ReadToken(doc, 0) == Token(ObjectBegin, 0, 1) && ReadToken(doc, 3) == Token(MemberSeparator, 3, 4)
    ensures ReadToken(doc, 4) == Token(NumberToken, 4, 5)
  {
    assert DigitsEnd(doc, 5) == 5;
  }

  lemma NameIsScanned(doc: bytes)
    requires doc == ONE_MEMBER || doc == COLON_BEHIND
    ensures ReadToken(doc, 1) == Token(StringToken, 1, 3)
  {
    assert ScanString(doc, 2) == Scan(3, true);
  }

  lemma MemberIsTokenized(toDouble: bytes -> Option<real>, doc: bytes)
    requires doc == ONE_MEMBER || doc == COLON_BEHIND
    ensures MemberTokens(SourceOf(toDouble, doc))
  {
    DocumentIsTokenized(toDouble, doc);
    MemberIsScanned(doc);
    NameIsScanned(doc);
    assert doc[2..2] == [] && doc[4..5] == [ZERO];
    ZeroIsRead();
  }

  lemma MembersEnd(toDouble: bytes -> Option<real>)
    ensures SourceOf(toDouble, ONE_MEMBER).token(5) == Token(ObjectEnd, 5, 6)
    ensures SourceOf(toDouble, COLON_BEHIND).token(5) == Token(MemberSeparator, 5, 6)
    ensures SourceOf(toDouble, COLON_BEHIND).token(6) == Token(ObjectEnd, 6, 7)
  {
    DocumentIsTokenized(toDouble, ONE_MEMBER);
    DocumentIsTokenized(toDouble, COLON_BEHIND);
    assert ReadToken(ONE_MEMBER, 5) == Token(ObjectEnd, 5, 6);
    assert ReadToken(COLON_BEHIND, 5) == Token(MemberSeparator, 5, 6);
    assert ReadToken(COLON_BEHIND, 6) == Token(ObjectEnd, 6, 7);
  }

  lemma MemberIsRead(f: Features, src: Source)
    requires MemberTokens(src)
    ensures AcceptValue(f, src, 0, 1) == AcceptNextMember(f, src, 5, 1, [Entry(Name([]), IntV(0))], [])
  {
    assert SkipCommentTokens(f, src, 0) == Token(ObjectBegin, 0, 1);
    assert SkipCommentTokens(f, src, 4) == Token(NumberToken, 4, 5);
    assert PastComments(src, 1) == Token(StringToken, 1, 3);
    MemberRead(f, src, 4, 1, [], [], Reading(IntV(0), 5));
    assert AcceptMember(f, src, 3, 1, [], []) == AcceptMemberValue(f, src, 4, 1, [], []);
    assert AcceptMembers(f, src, 1, 1, [], []) == AcceptMember(f, src, 3, 1, [], []);
    assert Put([], Name([]), IntV(0)) == [Entry(Name([]), IntV(0))];
  }

  lemma BehindName(f: Features, src: Source)
    requires MemberTokens(src)
    ensures PlaceOf(f, src, 3) == BeforeColon
  {
    assert MeetPast(src, 0, 3) == Passed && MeetPast(src, 1, 3) == Passed;
    assert SkipCommentTokens(f, src, 0) == Token(ObjectBegin, 0, 1);
    assert PastComments(src, 1) == Token(StringToken, 1, 3);
    assert MemberPlace(f, src, 3, 1, [], 3) == BeforeColon;
    assert MembersPlace(f, src, 1, 1, 3) == MemberPlace(f, src, 3, 1, [], 3);
    assert PlaceOf(f, src, 3) == FromPlace(f, src, Token(ObjectBegin, 0, 1), 1, 3) == MembersPlace(f, src, 1, 1, 3);
  }

  lemma MemberIsParsed(f: Features, toDouble: bytes -> Option<real>, was: Value)
    ensures MemberTokens(SourceOf(toDouble, ONE_MEMBER))
    ensures Parse(f, SourceOf(toDouble, ONE_MEMBER), was) == Result(true, ObjectV([Entry(Name([]), IntV(0))]), [])
  {
    var src := SourceOf(toDouble, ONE_MEMBER);
    MemberIsTokenized(toDouble, ONE_MEMBER);
    MembersEnd(toDouble);
    MemberIsRead(f, src);
    assert PastComments(src, 5) == Token(ObjectEnd, 5, 6);
    ParseAccepts(f, src, was);
  }

  /** With comments allowed, a comment in front of a colon is refused all the same. */
  lemma CommentBeforeColon(f: Features, toDouble: bytes -> Option<real>, c: bytes, was: Value)
    requires IsComment(c)
    ensures SourceOf(toDouble, ONE_MEMBER).Forward() && SourceOf(toDouble, Insert(ONE_MEMBER, 3, c)).Forward()
    ensures Parse(f, SourceOf(toDouble, ONE_MEMBER), was) == Result(true, ObjectV([Entry(Name([]), IntV(0))]), [])
    ensures var r := Parse(f, SourceOf(toDouble, Insert(ONE_MEMBER, 3, c)), was); r.Result? ==> !r.ok
  {
    MemberIsParsed(f, toDouble, was);
    BehindName(f, SourceOf(toDouble, ONE_MEMBER));
    InsertedComment(f, toDouble, ONE_MEMBER, 3, c, was);
  }

  // ---------- in front of what is no separator ----------

  lemma ColonEnds(f: Features, src: Source)
    requires MemberTokens(src) && src.token(5) == Token(MemberSeparator, 5, 6)
    ensures AcceptValue(f, src, 0, 1) == None
  {
    MemberIsRead(f, src);
  }

  lemma ColonIsRefused(f: Features, toDouble: bytes -> Option<real>, was: Value)
    ensures MemberTokens(SourceOf(toDouble, COLON_BEHIND))
    ensures var r := Parse(f, SourceOf(toDouble, COLON_BEHIND), was); r.Result? ==> !r.ok
  {
    MemberIsTokenized(toDouble, COLON_BEHIND);
    MembersEnd(toDouble);
    ColonEnds(f, SourceOf(toDouble, COLON_BEHIND));
    ParseAccepts(f, SourceOf(toDouble, COLON_BEHIND), was);
  }

  lemma MemberStays(f: Features, src: Source, src': Source, n: nat)
    requires Spliced(src, src', 5, n) && MemberTokens(src)
    ensures MemberTokens(src')
  {
    assert BeforeAt(src, src', 5, n, 0) && BeforeAt(src, src', 5, n, 1) && BeforeAt(src, src', 5, n, 3);
    assert BeforeAt(src, src', 5, n, 4);
    assert MeansTheSame(src, src', 5, n, Token(StringToken, 1, 3));
    assert MeansTheSame(src, src', 5, n, Token(NumberToken, 4, 5));
  }

  lemma ColonIsHidden(f: Features, src: Source, src': Source, n: nat)
    requires Spliced(src, src', 5, n) && src.size == 7 && MemberTokens(src)
    requires src.token(5) == Token(MemberSeparator, 5, 6) && src.token(6) == Token(ObjectEnd, 6, 7)
    ensures AcceptValue(f, src', 0, 1) == Some(Reading(ObjectV([Entry(Name([]), IntV(0))]), 7 + n))
  {
    assert BeforeAt(src, src', 5, n, 5) && BehindAt(src, src', 5, n, 5) && BehindAt(src, src', 5, n, 6);
    MemberStays(f, src, src', n);
    MemberIsRead(f, src');
    assert PastComments(src', 5) == PastComments(src', 5 + n) == Token(MemberSeparator, 5 + n, 6 + n);
    assert PastComments(src', 6 + n) == Token(ObjectEnd, 6 + n, 7 + n);
  }

  /** A comment can make a refused document accepted: behind it any token is taken for the separator of members. */
  lemma CommentHidesColon(f: Features, toDouble: bytes -> Option<real>, c: bytes, was: Value)
    requires IsComment(c)
    ensures SourceOf(toDouble, COLON_BEHIND).Forward() && SourceOf(toDouble, Insert(COLON_BEHIND, 5, c)).Forward()
    ensures var r := Parse(f, SourceOf(toDouble, COLON_BEHIND), was); r.Result? ==> !r.ok
    ensures Parse(f, SourceOf(toDouble, Insert(COLON_BEHIND, 5, c)), was)
            == Result(true, ObjectV([Entry(Name([]), IntV(0))]), [])
  {
    ColonIsRefused(f, toDouble, was);
    MembersEnd(toDouble);
    DocumentIsSpliced(toDouble, COLON_BEHIND, 5, c);
    ColonIsHidden(f, SourceOf(toDouble, COLON_BEHIND), SourceOf(toDouble, Insert(COLON_BEHIND, 5, c)), |c|);
    ParseAccepts(f, SourceOf(toDouble, Insert(COLON_BEHIND, 5, c)), was);
  }
}
