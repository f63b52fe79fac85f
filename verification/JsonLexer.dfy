/**
 The tokens of a document, as functions of the document and a position.
 */
module JsonLexer {
  import opened Wrappers
  import opened Bytes
  import opened JsonStrings
  import opened JsonNumbers
  import opened JsonValue

  // ---------- tokens ----------

  datatype TokenType =
    | EndOfStream | ObjectBegin | ObjectEnd | ArrayBegin | ArrayEnd | StringToken | NumberToken
    | TrueToken | FalseToken | NullToken | ArraySeparator | MemberSeparator | Comment | ErrorToken

  datatype Token = Token(kind: TokenType, start: nat, end: nat)

  /** The parts of the keywords after their first letter. */
  const RUE: bytes := [LETTER_R, LETTER_U, LETTER_E]
  const ALSE: bytes := [LETTER_A, LETTER_L, LETTER_S, LETTER_E]
  const ULL: bytes := [LETTER_U, LETTER_L, LETTER_L]

  function SkipSpaces(doc: bytes, pos: nat): (p: nat)
    requires pos <= |doc|
    ensures pos <= p <= |doc|
    ensures p < |doc| ==> !IsSpace(doc[p])
    decreases |doc| - pos
  {
    if pos < |doc| && IsSpace(doc[pos]) then SkipSpaces(doc, pos + 1) else pos
  }

  /** readCStyleComment, from behind the opening. */
  function CStyleComment(doc: bytes, pos: nat): (r: Scan)
    requires pos <= |doc|
    ensures pos <= r.pos <= |doc|
    decreases |doc| - pos
  {
    if pos + 1 < |doc| then
      if doc[pos] == STAR && doc[pos + 1] == SLASH then Scan(pos + 2, true) else CStyleComment(doc, pos + 1)
    else if pos == |doc| then Scan(pos, false)
    else Scan(pos + 1, doc[pos] == SLASH)
  }

  /** readCppStyleComment: to the end of the line, a DOS line end included. */
  function CppStyleComment(doc: bytes, pos: nat): (p: nat)
    requires pos <= |doc|
    ensures pos <= p <= |doc|
    decreases |doc| - pos
  {
    if pos == |doc| then pos
    else if doc[pos] == LINE_FEED then pos + 1
    else if doc[pos] == RETURN then
      if pos + 1 < |doc| && doc[pos + 1] == LINE_FEED then pos + 2 else pos + 1
    else CppStyleComment(doc, pos + 1)
  }

  /** readComment, from behind the first slash. */
  function CommentScan(doc: bytes, pos: nat): (r: Scan)
    requires pos <= |doc|
    ensures pos <= r.pos <= |doc|
  {
    if pos == |doc| then Scan(pos, false)
    else if doc[pos] == STAR then CStyleComment(doc, pos + 1)
    else if doc[pos] == SLASH then Scan(CppStyleComment(doc, pos + 1), true)
    else Scan(pos + 1, false)
  }

  function DigitsEnd(doc: bytes, pos: nat): (p: nat)
    requires pos <= |doc|
    ensures pos <= p <= |doc|
    decreases |doc| - pos
  {
    if pos < |doc| && IsDigit(doc[pos]) then DigitsEnd(doc, pos + 1) else pos
  }

  function FractionEnd(doc: bytes, pos: nat): (p: nat)
    requires pos <= |doc|
    ensures pos <= p <= |doc|
  {
    if pos < |doc| && doc[pos] == DOT then DigitsEnd(doc, pos + 1) else pos
  }

  function ExponentEnd(doc: bytes, pos: nat): (p: nat)
    requires pos <= |doc|
    ensures pos <= p <= |doc|
  {
    if pos < |doc| && (doc[pos] == LETTER_E || doc[pos] == CAPITAL_E) then
      if pos + 1 < |doc| && (doc[pos + 1] == PLUS || doc[pos + 1] == MINUS) then DigitsEnd(doc, pos + 2)
      else DigitsEnd(doc, pos + 1)
    else pos
  }

  /** readNumber, from behind the first character. */
  function NumberEnd(doc: bytes, pos: nat): (p: nat)
    requires pos <= |doc|
    ensures pos <= p <= |doc|
  {
    ExponentEnd(doc, FractionEnd(doc, DigitsEnd(doc, pos)))
  }

  /** A keyword whose first letter has been read. */
  function Keyword(doc: bytes, start: nat, rest: bytes, kind: TokenType): Token {
    if At(doc, start + 1, rest) then Token(kind, start, start + 1 + |rest|) else Token(ErrorToken, start, start + 1)
  }

  function ScanToken(start: nat, kind: TokenType, scan: Scan): Token {
    Token(if scan.ok then kind else ErrorToken, start, scan.pos)
  }

  /** The token that begins at a character that is not a space. */
  function TokenAt(doc: bytes, start: nat): (t: Token)
    requires start < |doc|
    ensures t.start == start < t.end <= |doc|
    ensures t.kind == StringToken ==> start + 2 <= t.end
  {
    var c := doc[start];
    if c == LBRACE then Token(ObjectBegin, start, start + 1)
    else if c == RBRACE then Token(ObjectEnd, start, start + 1)
    else if c == LBRACKET then Token(ArrayBegin, start, start + 1)
    else if c == RBRACKET then Token(ArrayEnd, start, start + 1)
    else if c == QUOTE then ScanToken(start, StringToken, ScanString(doc, start + 1))
    else if c == SLASH then ScanToken(start, Comment, CommentScan(doc, start + 1))
    else if IsDigit(c) || c == MINUS then Token(NumberToken, start, NumberEnd(doc, start + 1))
    else if c == LETTER_T then Keyword(doc, start, RUE, TrueToken)
    else if c == LETTER_F then Keyword(doc, start, ALSE, FalseToken)
    else if c == LETTER_N then Keyword(doc, start, ULL, NullToken)
    else if c == COMMA then Token(ArraySeparator, start, start + 1)
    else if c == COLON then Token(MemberSeparator, start, start + 1)
    else if c == 0 then Token(EndOfStream, start, start + 1)
    else Token(ErrorToken, start, start + 1)
  }

  /** readToken. */
  function ReadToken(doc: bytes, pos: nat): (t: Token)
    requires pos <= |doc|
    ensures pos <= t.start <= t.end <= |doc|
    ensures t.start == t.end ==> t.kind == EndOfStream
    ensures t.kind == StringToken ==> t.start + 2 <= t.end
  {
    var start := SkipSpaces(doc, pos);
    if start == |doc| then Token(EndOfStream, start, start) else TokenAt(doc, start)
  }

  // ---------- what a token denotes ----------

  function NumberValue(n: Number): Value {
    match n
    case Signed64(i) => IntV(i)
    case Unsigned64(u) => UIntV(u)
  }

  /** decodeNumber, falling back to decodeDouble, whose conversion is not modelled. */
  function DecodeNumberText(toDouble: bytes -> Option<real>, text: bytes): Option<Value>
    requires text != []
  {
    if DecodeInteger(text).Some? then Some(NumberValue(DecodeInteger(text).value))
    else if toDouble(text).Some? then Some(RealV(toDouble(text).value))
    else None
  }

  /** decodeString on a string token. */
  function DecodeStringToken(doc: bytes, t: Token): Option<bytes> {
    if t.start + 2 <= t.end <= |doc| then Unescape(doc[t.start + 1..t.end - 1]) else None
  }

  /** decodeNumber on a number token. */
  function DecodeNumberToken(toDouble: bytes -> Option<real>, doc: bytes, t: Token): Option<Value> {
    if t.start < t.end <= |doc| then DecodeNumberText(toDouble, doc[t.start..t.end]) else None
  }
}
