/**
 The reader as it runs: a cursor that moves through the document, a stack of
 the values under construction, and a growing list of errors.  A child on the
 stack stands for a reference into its parent; it is written back when popped.
 */
module JsonReader {
  import opened Wrappers
  import opened Bytes
  import opened Utf8
  import opened JsonStrings
  import opened JsonNumbers
  import opened JsonValue
  import opened JsonLexer
  import opened JsonGrammar

  /** How a call ends. */
  datatype Status = Returned(ok: bool) | Thrown(exception: Exception)

  /** decodeUnicodeEscapeSequence: four digits from the front of the text. */
  method DecodeUnicodeEscapeSequence(text: bytes) returns (r: Option<nat>)
    ensures r == ReadHex(text)
  {
    if |text| < 4 {
      return None;
    }
    var unicode := 0;
    for index := 0 to 4
      invariant forall i | 0 <= i < index :: HexValue(text[i]).Some?
      invariant index == 1 ==> unicode == HexValue(text[0]).value
      invariant index == 2 ==> unicode == HexValue(text[0]).value * 16 + HexValue(text[1]).value
      invariant index == 3 ==> unicode == (HexValue(text[0]).value * 16 + HexValue(text[1]).value) * 16 + HexValue(text[2]).value
      invariant index == 4 ==> Some(unicode) == ReadHex(text)
      invariant index == 0 ==> unicode == 0
    {
      var c := text[index];
      unicode := unicode * 16;
      if IsDigit(c) {
        unicode := unicode + (c as int - ZERO as int);
      } else if LETTER_A <= c <= LETTER_F {
        unicode := unicode + (c as int - LETTER_A as int) + 10;
      } else if CAPITAL_A <= c <= CAPITAL_F {
        unicode := unicode + (c as int - CAPITAL_A as int) + 10;
      } else {
        return None;
      }
    }
    return Some(unicode);
  }

  /** decodeUnicodeCodePoint. */
  method DecodeUnicodeCodePoint(text: bytes) returns (r: Option<Unit>)
    ensures r == ReadCodePoint(text)
  {
    var first := DecodeUnicodeEscapeSequence(text);
    if first.None? {
      return None;
    }
    if 0xD800 <= first.value <= 0xDBFF {
      if |text| - 4 < 6 {
        return None;
      }
      if text[4] == BACKSLASH && text[5] == LETTER_U {
        var second := DecodeUnicodeEscapeSequence(text[6..]);
        if second.None? {
          return None;
        }
        return Some(Unit(0x10000 + (first.value % 1024) * 1024 + second.value % 1024, 10));
      }
      return None;
    }
    return Some(Unit(first.value, 4));
  }

  /** decodeString on the text between the quotes; None stands for an added error. */
  method DecodeStringText(text: bytes) returns (r: Option<bytes>)
    ensures r == Unescape(text)
  {
    var decoded: bytes := [];
    var current := 0;
    PrefixedNothing(Unescape(text));
    assert text[0..] == text;
    while current != |text|
      invariant current <= |text|
      invariant Unescape(text) == Prefixed(decoded, Unescape(text[current..]))
      decreases |text| - current
    {
      ghost var rest := text[current..];
      var c := text[current];
      current := current + 1;
      if c == QUOTE {
        assert decoded + [] == decoded;
        return Some(decoded);
      } else if c == BACKSLASH {
        if current == |text| {
          return None;
        }
        var escape := text[current];
        current := current + 1;
        if escape == LETTER_U {
          assert text[current..] == rest[2..];
          var unicode := DecodeUnicodeCodePoint(text[current..]);
          if unicode.None? {
            return None;
          }
          PrefixedTwice(decoded, CodePointToUtf8(unicode.value.cp), Unescape(rest[2 + unicode.value.length..]));
          decoded := decoded + CodePointToUtf8(unicode.value.cp);
          current := current + unicode.value.length;
          assert text[current..] == rest[2 + unicode.value.length..];
        } else if LongEscape(escape).None? {
          return None;
        } else {
          assert text[current..] == rest[2..];
          PrefixedTwice(decoded, [LongEscape(escape).value], Unescape(rest[2..]));
          decoded := decoded + [LongEscape(escape).value];
        }
      } else {
        assert text[current..] == rest[1..];
        PrefixedTwice(decoded, [c], Unescape(rest[1..]));
        decoded := decoded + [c];
      }
    }
    assert decoded + [] == decoded;
    return Some(decoded);
  }

  lemma PrefixedNothing(r: Option<bytes>)
    ensures Prefixed([], r) == r
  {
    if r.Some? {
      assert [] + r.value == r.value;
    }
  }

  /** The character at a position; zero at the end, as getNextChar has it. */
  function CharAt(doc: bytes, pos: nat): byte {
    if pos < |doc| then doc[pos] else 0
  }

  class Reader {
    const features: Features
    const toDouble: bytes -> Option<real>
    var doc: bytes
    var current: nat
    /** The node stack, its topmost node apart. */
    var nodes: seq<Value>
    var currentValue: Value
    var errors: seq<Error>
    ghost var src: Source

    constructor (features: Features, toDouble: bytes -> Option<real>)
      ensures this.features == features && this.toDouble == toDouble && InDocument()
    {
      this.features := features;
      this.toDouble := toDouble;
      doc := [];
      current := 0;
      nodes := [];
      currentValue := NullV;
      errors := [];
      src := SourceOf(toDouble, []);
    }

    ghost predicate InDocument()
      reads this
    {
      current <= |doc|
    }

    ghost predicate Tokenized()
      reads `doc, `src
    {
      src.Forward() && Tokenizes(src, toDouble, doc)
    }

    /** The token is read from where it begins. */
    ghost predicate Stands(token: Token)
      reads `doc
    {
      token.start <= |doc| && JsonLexer.ReadToken(doc, token.start) == token
    }

    // ---------- tokens ----------

    method GetNextChar() returns (c: byte)
      requires InDocument()
      modifies `current
      ensures c == CharAt(doc, old(current))
      ensures current == if old(current) == |doc| then old(current) else old(current) + 1
    {
      if current == |doc| {
        return 0;
      }
      c := doc[current];
      current := current + 1;
    }

    method SkipSpaces()
      requires InDocument()
      modifies `current
      ensures InDocument() && current == JsonLexer.SkipSpaces(doc, old(current))
    {
      while current != |doc|
        invariant InDocument() && JsonLexer.SkipSpaces(doc, current) == JsonLexer.SkipSpaces(doc, old(current))
        decreases |doc| - current
      {
        var c := doc[current];
        if c == SPACE || c == TAB || c == RETURN || c == LINE_FEED {
          current := current + 1;
        } else {
          break;
        }
      }
    }

    /** match: the pattern is compared from its end. */
    method Match(pattern: bytes) returns (ok: bool)
      requires InDocument()
      modifies `current
      ensures InDocument() && ok == At(doc, old(current), pattern)
      ensures current == old(current) + if ok then |pattern| else 0
    {
      if |doc| - current < |pattern| {
        return false;
      }
      var index := |pattern|;
      while index > 0
        invariant current == old(current) && 0 <= index <= |pattern|
        invariant forall i | index <= i < |pattern| :: doc[current + i] == pattern[i]
      {
        index := index - 1;
        if doc[current + index] != pattern[index] {
          return false;
        }
      }
      current := current + |pattern|;
      return true;
    }

    method ReadCStyleComment() returns (ok: bool)
      requires InDocument()
      modifies `current
      ensures InDocument() && Scan(current, ok) == CStyleComment(doc, old(current))
    {
      while current + 1 < |doc|
        invariant InDocument() && CStyleComment(doc, current) == CStyleComment(doc, old(current))
        decreases |doc| - current
      {
        var c := GetNextChar();
        if c == STAR && doc[current] == SLASH {
          break;
        }
      }
      var last := GetNextChar();
      return last == SLASH;
    }

    method ReadCppStyleComment()
      requires InDocument()
      modifies `current
      ensures InDocument() && current == CppStyleComment(doc, old(current))
    {
      while current != |doc|
        invariant InDocument() && CppStyleComment(doc, current) == CppStyleComment(doc, old(current))
        decreases |doc| - current
      {
        var c := GetNextChar();
        if c == LINE_FEED {
          break;
        }
        if c == RETURN {
          if current != |doc| && doc[current] == LINE_FEED {
            var _ := GetNextChar();
          }
          break;
        }
      }
    }

    method ReadComment() returns (ok: bool)
      requires InDocument()
      modifies `current
      ensures InDocument() && Scan(current, ok) == CommentScan(doc, old(current))
    {
      var c := GetNextChar();
      ok := false;
      if c == STAR {
        ok := ReadCStyleComment();
      } else if c == SLASH {
        ReadCppStyleComment();
        ok := true;
      }
    }

    /** One step of readNumber: the cursor moves to p, whose character is fetched. */
    method Fetch(p: nat) returns (c: byte, p': nat)
      requires p <= |doc|
      modifies `current
      ensures current == p && c == CharAt(doc, p) && p' == if p < |doc| then p + 1 else p
    {
      current := p;
      if current < |doc| {
        c := doc[p];
        p' := p + 1;
      } else {
        c := 0;
        p' := p;
      }
    }

    /** The local variables of readNumber: the character under the cursor and the position behind it. */
    ghost predicate Fetched(c: byte, p: nat)
      reads this
    {
      InDocument() && c == CharAt(doc, current) && p == if current < |doc| then current + 1 else current
    }

    /** The digit loop of readNumber. */
    method ReadDigits(c: byte, p: nat) returns (c': byte, p': nat)
      requires InDocument() && p <= |doc| && (IsDigit(c) || Fetched(c, p))
      modifies `current
      ensures Fetched(c', p') && current == if IsDigit(c) then DigitsEnd(doc, p) else old(current)
    {
      c', p' := c, p;
      while IsDigit(c')
        invariant InDocument() && p' <= |doc|
        invariant IsDigit(c') ==> IsDigit(c) && DigitsEnd(doc, p') == DigitsEnd(doc, p)
        invariant !IsDigit(c') ==> Fetched(c', p') && current == if IsDigit(c) then DigitsEnd(doc, p) else old(current)
        decreases |doc| - p', IsDigit(c')
      {
        c', p' := Fetch(p');
      }
    }

    method ReadFraction(c: byte, p: nat) returns (c': byte, p': nat)
      requires Fetched(c, p)
      modifies `current
      ensures Fetched(c', p') && current == FractionEnd(doc, old(current))
    {
      c', p' := c, p;
      if c == DOT {
        c', p' := Fetch(p);
        c', p' := ReadDigits(c', p');
      }
    }

    method ReadExponent(c: byte, p: nat)
      requires Fetched(c, p)
      modifies `current
      ensures InDocument() && current == ExponentEnd(doc, old(current))
    {
      if c == LETTER_E || c == CAPITAL_E {
        var c', p' := Fetch(p);
        if c' == PLUS || c' == MINUS {
          c', p' := Fetch(p');
        }
        c', p' := ReadDigits(c', p');
      }
    }

    method ReadNumber()
      requires InDocument()
      modifies `current
      ensures InDocument() && current == NumberEnd(doc, old(current))
    {
      var c, p := ReadDigits(ZERO, current);
      c, p := ReadFraction(c, p);
      ReadExponent(c, p);
    }

    method ReadString() returns (ok: bool)
      requires InDocument()
      modifies `current
      ensures InDocument() && Scan(current, ok) == ScanString(doc, old(current))
    {
      var c: byte := 0;
      while current != |doc|
        invariant InDocument() && c != QUOTE && ScanString(doc, current) == ScanString(doc, old(current))
        decreases |doc| - current
      {
        c := GetNextChar();
        if c == BACKSLASH {
          var _ := GetNextChar();
        } else if c == QUOTE {
          break;
        }
      }
      return c == QUOTE;
    }

    method ReadToken() returns (token: Token)
      requires InDocument() && Tokenized()
      modifies `current
      ensures InDocument() && token == src.token(old(current)) && current == token.end
      ensures Stands(token)
    {
      SkipSpaces();
      var start := current;
      var c := GetNextChar();
      var ok, kind := true, ErrorToken;
      if c == LBRACE {
        kind := ObjectBegin;
      } else if c == RBRACE {
        kind := ObjectEnd;
      } else if c == LBRACKET {
        kind := ArrayBegin;
      } else if c == RBRACKET {
        kind := ArrayEnd;
      } else if c == QUOTE {
        kind := StringToken;
        ok := ReadString();
      } else if c == SLASH {
        kind := Comment;
        ok := ReadComment();
      } else if IsDigit(c) || c == MINUS {
        kind := NumberToken;
        ReadNumber();
      } else if c == LETTER_T {
        kind := TrueToken;
        ok := Match(RUE);
      } else if c == LETTER_F {
        kind := FalseToken;
        ok := Match(ALSE);
      } else if c == LETTER_N {
        kind := NullToken;
        ok := Match(ULL);
      } else if c == COMMA {
        kind := ArraySeparator;
      } else if c == COLON {
        kind := MemberSeparator;
      } else if c == 0 {
        kind := EndOfStream;
      } else {
        ok := false;
      }
      token := Token(if ok then kind else ErrorToken, start, current);
      assert token == JsonLexer.ReadToken(doc, old(current));
      ReadAgain(doc, old(current));
    }

    /** The loops that pass over comment tokens, from a token already read. */
    method PassComments(token: Token) returns (token': Token)
      requires InDocument() && Tokenized() && current == token.end && Stands(token)
      modifies `current
      ensures InDocument() && current == token'.end && old(current) <= current && token'.kind != Comment
      ensures token' == if token.kind == Comment then PastComments(src, old(current)) else token
      ensures Stands(token')
    {
      token' := token;
      while token'.kind == Comment
        invariant InDocument() && current == token'.end && old(current) <= current
        invariant Stands(token')
        invariant token'.kind == Comment ==> token.kind == Comment && PastComments(src, current) == PastComments(src, old(current))
        invariant token'.kind != Comment ==> token' == if token.kind == Comment then PastComments(src, old(current)) else token
        decreases |doc| - current, token'.kind == Comment
      {
        token' := ReadToken();
      }
    }

    method SkipCommentTokens() returns (token: Token)
      requires InDocument() && Tokenized()
      modifies `current
      ensures InDocument() && token == JsonGrammar.SkipCommentTokens(features, src, old(current)) && current == token.end
      ensures Stands(token)
    {
      token := ReadToken();
      if features.allowComments {
        token := PassComments(token);
      }
    }

    /** A token, comments passed over. */
    method ReadTokenPastComments() returns (token: Token)
      requires InDocument() && Tokenized()
      modifies `current
      ensures InDocument() && token == PastComments(src, old(current)) && current == token.end
      ensures Stands(token)
    {
      token := ReadToken();
      token := PassComments(token);
    }

    // ---------- errors ----------

    method AddError(token: Token)
      modifies `errors
      ensures errors == old(errors) + [Error(token)]
    {
      errors := errors + [Error(token)];
    }

    method RecoverFromError(until: TokenType)
      requires InDocument() && Tokenized()
      modifies `current, `errors
      ensures InDocument() && errors == old(errors) && current == Recover(src, old(current), until)
    {
      var errorCount := |errors|;
      while true
        invariant InDocument() && errors == old(errors)
        invariant Recover(src, current, until) == Recover(src, old(current), until)
        decreases |doc| - current
      {
        var skip := ReadToken();
        if skip.kind == until || skip.kind == EndOfStream {
          break;
        }
      }
      errors := errors[..errorCount];
    }

    method AddErrorAndRecover(token: Token, until: TokenType)
      requires InDocument() && Tokenized()
      modifies `current, `errors
      ensures InDocument() && errors == old(errors) + [Error(token)] && current == Recover(src, old(current), until)
    {
      AddError(token);
      RecoverFromError(until);
    }

    method DecodeNumber(token: Token) returns (decoded: Option<Value>)
      requires Tokenized()
      requires Stands(token) && token.kind == NumberToken
      modifies `errors
      ensures decoded == src.number(token)
      ensures errors == if decoded.Some? then old(errors) else old(errors) + [Error(token)]
    {
      assert src.number(token) == DecodeNumberToken(toDouble, doc, JsonLexer.ReadToken(doc, token.start));
      var number := JsonNumbers.DecodeNumber(doc[token.start..token.end]);
      if number.Some? {
        return Some(NumberValue(number.value));
      }
      var double := toDouble(doc[token.start..token.end]);
      if double.Some? {
        return Some(RealV(double.value));
      }
      AddError(token);
      return None;
    }

    method DecodeString(token: Token) returns (decoded: Option<bytes>)
      requires Tokenized()
      requires Stands(token) && token.kind == StringToken
      modifies `errors
      ensures decoded == src.text(token)
      ensures errors == if decoded.Some? then old(errors) else old(errors) + [Error(token)]
    {
      assert src.text(token) == DecodeStringToken(doc, JsonLexer.ReadToken(doc, token.start));
      decoded := DecodeStringText(doc[token.start + 1..token.end - 1]);
      if decoded.None? {
        AddError(token);
      }
    }

    // ---------- values ----------

    /** The call has ended as the outcome says; a normal return leaves the stack at its height, only the topmost node changed. */
    ghost predicate Follows(s: Status, r: Outcome, below: seq<Value>)
      reads this
    {
      && InDocument()
      && match r
         case Raised(e) => s == Thrown(e)
         case Done(ok, v, pos, errs) =>
           s == Returned(ok) && current == pos && errors == errs && nodes == below && currentValue == v
    }

    method ReadValue() returns (s: Status)
      requires InDocument() && Tokenized()
      modifies `current, `nodes, `currentValue, `errors
      decreases |doc| - current, 0
      ensures Follows(s, old(JsonGrammar.ReadValue(features, src, current, |nodes| + 1, currentValue, errors)), old(nodes))
    {
      if |nodes| + 1 > STACK_LIMIT {
        return Thrown(StackLimitExceeded);
      }
      var token := SkipCommentTokens();
      match token.kind
      case ObjectBegin =>
        s := ReadObject();
      case ArrayBegin =>
        s := ReadArray(ArrayOutcome(features, src, current, |nodes| + 1, errors));
      case NumberToken =>
        var decoded := DecodeNumber(token);
        if decoded.Some? {
          currentValue := decoded.value;
        }
        s := Returned(decoded.Some?);
      case StringToken =>
        var decoded := DecodeString(token);
        if decoded.Some? {
          currentValue := StringV(decoded.value);
        }
        s := Returned(decoded.Some?);
      case TrueToken =>
        currentValue := BoolV(true);
        s := Returned(true);
      case FalseToken =>
        currentValue := BoolV(false);
        s := Returned(true);
      case NullToken =>
        currentValue := NullV;
        s := Returned(true);
      case ArraySeparator | ObjectEnd | ArrayEnd =>
        if features.allowDroppedNullPlaceholders {
          current := current - 1;
          currentValue := NullV;
          s := Returned(true);
        } else {
          AddError(token);
          s := Returned(false);
        }
      case EndOfStream | MemberSeparator | Comment | ErrorToken =>
        AddError(token);
        s := Returned(false);
    }

    /** A child of the current container is pushed, read with outcome c, popped and stored. */
    method ReadChild(key: Key, ghost c: Outcome) returns (s: Status)
      requires InDocument() && Tokenized() && Container(currentValue)
      requires c == JsonGrammar.ReadValue(features, src, current, |nodes| + 2, Get(currentValue.entries, key), errors)
      modifies `current, `nodes, `currentValue, `errors
      decreases |doc| - current, 1
      ensures InDocument()
      ensures match c
              case Raised(e) => s == Thrown(e)
              case Done(ok, v, pos, errs) =>
                && s == Returned(ok) && current == pos && errors == errs && nodes == old(nodes)
                && currentValue == old(currentValue).(entries := Put(old(currentValue).entries, key, v))
    {
      var container := currentValue;
      nodes := nodes + [container];
      currentValue := Get(container.entries, key);
      s := ReadValue();
      if s.Thrown? {
        return;
      }
      nodes := nodes[..|nodes| - 1];
      currentValue := container.(entries := Put(container.entries, key, currentValue));
    }

    method ReadArray(ghost r: Outcome) returns (s: Status)
      requires InDocument() && Tokenized()
      requires r == ArrayOutcome(features, src, current, |nodes| + 1, errors)
      modifies `current, `nodes, `currentValue, `errors
      decreases |doc| - current, 4
      ensures Follows(s, r, old(nodes))
    {
      ArrayStart(features, src, toDouble, doc, current, |nodes| + 1, errors);
      currentValue := ArrayV([]);
      SkipSpaces();
      if current != |doc| && doc[current] == RBRACKET {
        assert r == Done(true, ArrayV([]), src.token(current).end, errors);
        var _ := ReadToken();
        return Returned(true);
      }
      s := ReadElements();
    }

    /** The loop of readArray. */
    method ReadElements() returns (s: Status)
      requires InDocument() && Tokenized() && currentValue == ArrayV([])
      modifies `current, `nodes, `currentValue, `errors
      decreases |doc| - current, 3
      ensures Follows(s, old(JsonGrammar.ReadElements(features, src, current, |nodes| + 1, [], 0, errors)), old(nodes))
    {
      var index := 0;
      while true
        invariant InDocument() && old(current) <= current && nodes == old(nodes) && currentValue.ArrayV?
        invariant JsonGrammar.ReadElements(features, src, current, |nodes| + 1, currentValue.entries, index, errors)
                  == old(JsonGrammar.ReadElements(features, src, current, |nodes| + 1, [], 0, errors))
        decreases |doc| - current
      {
        var more;
        s, more := ReadElement(index);
        if !more {
          return;
        }
        index := index + 1;
      }
    }

    /** One turn of the loop of readArray, and whether the loop goes on. */
    method ReadElement(index: nat) returns (s: Status, more: bool)
      requires InDocument() && Tokenized() && currentValue.ArrayV?
      modifies `current, `nodes, `currentValue, `errors
      decreases |doc| - current, 2
      ensures InDocument()
      ensures var r := old(JsonGrammar.ReadElements(features, src, current, |nodes| + 1, currentValue.entries, index, errors));
              if more then
                && old(current) < current && nodes == old(nodes) && currentValue.ArrayV?
                && r == JsonGrammar.ReadElements(features, src, current, |nodes| + 1, currentValue.entries, index + 1, errors)
              else Follows(s, r, old(nodes))
    {
      ghost var r := JsonGrammar.ReadElements(features, src, current, |nodes| + 1, currentValue.entries, index, errors);
      more := false;
      s := ReadChild(Index(index), JsonGrammar.ReadValue(
        features, src, current, |nodes| + 2, Get(currentValue.entries, Index(index)), errors));
      if s.Thrown? {
        return;
      }
      if !s.ok {
        RecoverFromError(ArrayEnd);
        return;
      }
      assert ElementEnd(features, src, current, |nodes| + 1, currentValue.entries, index, errors, r);
      s, more := ReadArraySeparator(index, r);
    }

    /** The end of a turn of readArray, behind the element. */
    method ReadArraySeparator(index: nat, ghost r: Outcome) returns (s: Status, more: bool)
      requires InDocument() && Tokenized() && currentValue.ArrayV?
      requires ElementEnd(features, src, current, |nodes| + 1, currentValue.entries, index, errors, r)
      modifies `current, `errors
      ensures InDocument()
      ensures if more then
                && old(current) < current
                && r == JsonGrammar.ReadElements(features, src, current, |nodes| + 1, currentValue.entries, index + 1, errors)
              else Follows(s, r, nodes)
    {
      var token := ReadTokenPastComments();
      if token.kind != ArraySeparator && token.kind != ArrayEnd {
        AddErrorAndRecover(token, ArrayEnd);
        return Returned(false), false;
      }
      return Returned(true), token.kind == ArraySeparator;
    }

    /** The rest of a turn of readObject, behind the name, towards its outcome r, and whether the loop goes on. */
    method ReadMember(name: bytes, ghost r: Outcome) returns (s: Status, more: bool)
      requires InDocument() && Tokenized() && currentValue.ObjectV?
      requires r == JsonGrammar.ReadMember(features, src, current, |nodes| + 1, currentValue.entries, name, errors)
      modifies `current, `nodes, `currentValue, `errors
      decreases |doc| - current, 2
      ensures InDocument()
      ensures if more then
                && old(current) < current && nodes == old(nodes) && currentValue.ObjectV?
                && r == JsonGrammar.ReadMembers(features, src, current, |nodes| + 1, currentValue.entries, name, errors)
              else Follows(s, r, old(nodes))
    {
      var ok;
      ghost var c;
      ok, c := ReadColon(name, r);
      if !ok {
        return Returned(false), false;
      }
      s, more := ReadMemberValue(name, c, r);
    }

    /** The colon; behind it the value will be read with outcome c. */
    method ReadColon(name: bytes, ghost r: Outcome) returns (ok: bool, ghost c: Outcome)
      requires InDocument() && Tokenized() && currentValue.ObjectV?
      requires r == JsonGrammar.ReadMember(features, src, current, |nodes| + 1, currentValue.entries, name, errors)
      modifies `current, `errors
      ensures InDocument()
      ensures nodes == old(nodes) && currentValue == old(currentValue)
      ensures !ok ==> r == Done(false, currentValue, current, errors)
      ensures ok ==>
        && old(current) < current && (c.Done? ==> c.pos <= src.size)
        && c == JsonGrammar.ReadValue(features, src, current, |nodes| + 2, Get(currentValue.entries, Name(name)), errors)
        && MemberFollowed(features, src, |nodes| + 1, currentValue.entries, name, c, r)
    {
      c := MemberFollows(features, src, current, |nodes| + 1, currentValue.entries, name, errors, r);
      ok := ReadColonToken();
    }

    method ReadColonToken() returns (ok: bool)
      requires InDocument() && Tokenized()
      modifies `current, `errors
      ensures InDocument()
      ensures var colon := src.token(old(current));
              && colon.end <= src.size
              && if colon.kind == MemberSeparator then
                   ok && old(current) < current == colon.end && errors == old(errors)
                 else
                   !ok && current == Recover(src, colon.end, ObjectEnd) && errors == old(errors) + [Error(colon)]
    {
      var colon := ReadToken();
      ok := colon.kind == MemberSeparator;
      if !ok {
        AddErrorAndRecover(colon, ObjectEnd);
      }
    }

    /** Behind the colon. */
    method ReadMemberValue(name: bytes, ghost c: Outcome, ghost r: Outcome) returns (s: Status, more: bool)
      requires InDocument() && Tokenized() && currentValue.ObjectV?
      requires c == JsonGrammar.ReadValue(features, src, current, |nodes| + 2, Get(currentValue.entries, Name(name)), errors)
      requires c.Done? ==> c.pos <= src.size
      requires MemberFollowed(features, src, |nodes| + 1, currentValue.entries, name, c, r)
      modifies `current, `nodes, `currentValue, `errors
      decreases |doc| - current, 2
      ensures InDocument()
      ensures if more then
                && old(current) <= current && nodes == old(nodes) && currentValue.ObjectV?
                && r == JsonGrammar.ReadMembers(features, src, current, |nodes| + 1, currentValue.entries, name, errors)
              else Follows(s, r, old(nodes))
    {
      more := false;
      s := ReadChild(Name(name), c);
      if s.Thrown? {
        return;
      }
      if !s.ok {
        assert r == Done(false, currentValue, Recover(src, current, ObjectEnd), errors);
        RecoverFromError(ObjectEnd);
        return;
      }
      assert MemberEnd(features, src, current, |nodes| + 1, currentValue.entries, name, errors, r);
      s, more := ReadComma(name, r);
    }

    /** The end of a turn of readObject, behind the value. */
    method ReadComma(name: bytes, ghost r: Outcome) returns (s: Status, more: bool)
      requires InDocument() && Tokenized() && currentValue.ObjectV?
      requires MemberEnd(features, src, current, |nodes| + 1, currentValue.entries, name, errors, r)
      modifies `current, `errors
      ensures InDocument() && old(current) <= current
      ensures if more then
                r == JsonGrammar.ReadMembers(features, src, current, |nodes| + 1, currentValue.entries, name, errors)
              else Follows(s, r, nodes)
    {
      var comma := ReadToken();
      if comma.kind != ObjectEnd && comma.kind != ArraySeparator && comma.kind != Comment {
        AddErrorAndRecover(comma, ObjectEnd);
        return Returned(false), false;
      }
      comma := PassComments(comma);
      return Returned(true), comma.kind != ObjectEnd;
    }

    /** The name of a member; without one, how readObject ends. */
    method DecodeName(token: Token) returns (s: Status, name: Option<bytes>)
      requires InDocument() && Tokenized() && current == token.end && Stands(token)
      modifies `current, `errors
      ensures InDocument()
      ensures name.Some? <==> token.kind == StringToken && src.text(token).Some?
      ensures name.Some? ==> name == src.text(token) && current == old(current) && errors == old(errors)
      ensures name.None? ==>
        if token.kind == NumberToken && features.allowNumericKeys && src.number(token).Some? then s == Thrown(LogicError)
        else s == Returned(false) && current == Recover(src, token.end, ObjectEnd) && errors == old(errors) + [Error(token)]
    {
      s, name := Returned(false), None;
      if token.kind == StringToken {
        name := DecodeString(token);
        if name.None? {
          RecoverFromError(ObjectEnd);
        }
      } else if token.kind == NumberToken && features.allowNumericKeys {
        var number := DecodeNumber(token);
        if number.None? {
          RecoverFromError(ObjectEnd);
        } else {
          // asCString refuses every value that is not a string
          s := Thrown(LogicError);
        }
      } else {
        AddErrorAndRecover(token, ObjectEnd);
      }
    }

    method ReadObject() returns (s: Status)
      requires InDocument() && Tokenized()
      modifies `current, `nodes, `currentValue, `errors
      decreases |doc| - current, 4
      ensures Follows(s, old(JsonGrammar.ReadMembers(features, src, current, |nodes| + 1, [], [], errors)), old(nodes))
    {
      currentValue := ObjectV([]);
      var name: bytes := [];
      while true
        invariant InDocument() && old(current) <= current && nodes == old(nodes) && currentValue.ObjectV?
        invariant JsonGrammar.ReadMembers(features, src, current, |nodes| + 1, currentValue.entries, name, errors)
                  == old(JsonGrammar.ReadMembers(features, src, current, |nodes| + 1, [], [], errors))
        decreases |doc| - current
      {
        var more;
        s, name, more := ReadNamedMember(name);
        if !more {
          return;
        }
      }
    }

    /** One turn of the loop of readObject with the name read last, and whether the loop goes on. */
    method ReadNamedMember(last: bytes) returns (s: Status, name: bytes, more: bool)
      requires InDocument() && Tokenized() && currentValue.ObjectV?
      modifies `current, `nodes, `currentValue, `errors
      decreases |doc| - current, 3
      ensures InDocument()
      ensures var r := old(JsonGrammar.ReadMembers(features, src, current, |nodes| + 1, currentValue.entries, last, errors));
              if more then
                && old(current) < current && nodes == old(nodes) && currentValue.ObjectV?
                && r == JsonGrammar.ReadMembers(features, src, current, |nodes| + 1, currentValue.entries, name, errors)
              else Follows(s, r, old(nodes))
    {
      ghost var r := JsonGrammar.ReadMembers(features, src, current, |nodes| + 1, currentValue.entries, last, errors);
      name, more := [], false;
      var decoded;
      s, decoded := ReadName(last, r);
      if decoded.Some? {
        name := decoded.value;
        s, more := ReadMember(name, r);
      }
    }

    /** The beginning of a turn towards its outcome r: the name of a member, or the end of the object. */
    method ReadName(last: bytes, ghost r: Outcome) returns (s: Status, name: Option<bytes>)
      requires InDocument() && Tokenized() && currentValue.ObjectV?
      requires r == JsonGrammar.ReadMembers(features, src, current, |nodes| + 1, currentValue.entries, last, errors)
      modifies `current, `errors
      ensures InDocument()
      ensures if name.Some? then
                && old(current) < current
                && r == JsonGrammar.ReadMember(features, src, current, |nodes| + 1, currentValue.entries, name.value, errors)
              else Follows(s, r, nodes)
    {
      var tokenName := ReadTokenPastComments();
      if tokenName.kind == ObjectEnd && last == [] {
        return Returned(true), None;
      }
      s, name := DecodeName(tokenName);
    }

    /** parse; the root given is the value stored before. */
    method Parse(document: bytes, was: Value) returns (s: Status, root: Value)
      modifies this
      ensures InDocument() && doc == document
      ensures Tokenized() && src == SourceOf(toDouble, document)
      ensures match JsonGrammar.Parse(features, src, was)
              case Threw(e) => s == Thrown(e)
              case Result(ok, v, errs) => s == Returned(ok) && root == v && errors == errs && nodes == []
    {
      root := was;
      doc := document;
      src := SourceOf(toDouble, document);
      DocumentIsTokenized(toDouble, document);
      current := 0;
      errors := [];
      nodes := [];
      currentValue := was;
      s := ReadValue();
      if s.Thrown? {
        return;
      }
      root := currentValue;
      var _ := SkipCommentTokens();
      if features.strictRoot && !Container(root) {
        AddError(Token(ErrorToken, 0, |doc|));
        return Returned(false), root;
      }
    }
  }

  /** The rest of readObject behind the value of a member read with outcome c ends as r. */
  ghost predicate MemberFollowed(f: Features, src: Source, depth: nat, es: seq<Entry>, name: bytes, c: Outcome,
                                 r: Outcome)
    requires src.Forward() && (c.Done? ==> c.pos <= src.size)
  {
    if c.Raised? then r == c
    else
      var es' := Put(es, Name(name), c.value);
      if c.ok then MemberEnd(f, src, c.pos, depth, es', name, c.errors, r)
      else r == Done(false, ObjectV(es'), Recover(src, c.pos, ObjectEnd), c.errors)
  }

  /** The rest of readArray behind element i ends as r. */
  ghost predicate ElementEnd(f: Features, src: Source, pos: nat, depth: nat, es: seq<Entry>, i: nat, errors: seq<Error>,
                             r: Outcome)
    requires src.Forward() && pos <= src.size
  {
    var t := PastComments(src, pos);
    if t.kind == ArrayEnd then r == Done(true, ArrayV(es), t.end, errors)
    else if t.kind == ArraySeparator then r == ReadElements(f, src, t.end, depth, es, i + 1, errors)
    else r == Fail(src, ArrayV(es), t, ArrayEnd, errors)
  }

  /** The rest behind the value of a member. */
  ghost predicate MemberEnd(f: Features, src: Source, pos: nat, depth: nat, es: seq<Entry>, name: bytes,
                            errors: seq<Error>, r: Outcome)
    requires src.Forward() && pos <= src.size
  {
    var comma := src.token(pos);
    if !EndsMember(comma) then r == Fail(src, ObjectV(es), comma, ObjectEnd, errors)
    else
      var comma' := if comma.kind == Comment then PastComments(src, comma.end) else comma;
      if comma'.kind == ObjectEnd then r == Done(true, ObjectV(es), comma'.end, errors)
      else r == ReadMembers(f, src, comma'.end, depth, es, name, errors)
  }

  lemma MemberFollows(f: Features, src: Source, pos: nat, depth: nat, es: seq<Entry>, name: bytes,
                      errors: seq<Error>, r: Outcome) returns (c: Outcome)
    requires src.Forward() && pos <= src.size
    requires r == JsonGrammar.ReadMember(f, src, pos, depth, es, name, errors)
    ensures c.Done? ==> c.pos <= src.size
    ensures var colon := src.token(pos);
            && colon.end <= src.size
            && if colon.kind == MemberSeparator then
                 && c == ReadValue(f, src, colon.end, depth + 1, Get(es, Name(name)), errors)
                 && MemberFollowed(f, src, depth, es, name, c, r)
               else r == Done(false, ObjectV(es), Recover(src, colon.end, ObjectEnd), errors + [Error(colon)])
  {
    assert src.Ahead(pos, src.token(pos));
    c := ReadValue(f, src, src.token(pos).end, depth + 1, Get(es, Name(name)), errors);
  }

  /** readArray, behind the opening bracket. */
  ghost function ArrayOutcome(f: Features, src: Source, pos: nat, depth: nat, errors: seq<Error>): Outcome
    requires src.Forward() && pos <= src.size
  {
    if src.token(pos).kind == ArrayEnd then Done(true, ArrayV([]), src.token(pos).end, errors)
    else ReadElements(f, src, pos, depth, [], 0, errors)
  }

  /** How it goes on, spaces skipped. */
  lemma ArrayStart(f: Features, src: Source, toDouble: bytes -> Option<real>, doc: bytes, pos: nat, depth: nat,
                   errors: seq<Error>)
    requires src.Forward() && Tokenizes(src, toDouble, doc) && pos <= |doc|
    ensures var p := SkipSpaces(doc, pos);
            ArrayOutcome(f, src, pos, depth, errors)
            == if p < |doc| && doc[p] == RBRACKET then Done(true, ArrayV([]), src.token(p).end, errors)
               else ReadElements(f, src, p, depth, [], 0, errors)
  {
    var p := SkipSpaces(doc, pos);
    assert src.token(p) == JsonLexer.ReadToken(doc, p) == JsonLexer.ReadToken(doc, pos);
    SameElements(f, src, pos, p, depth, [], 0, errors);
  }

  /** Where the same token is read, the same elements are read. */
  lemma SameElements(f: Features, src: Source, p: nat, q: nat, depth: nat, es: seq<Entry>, i: nat, errors: seq<Error>)
    requires src.Forward() && p <= q <= src.size && src.token(p) == src.token(q)
    ensures ReadElements(f, src, p, depth, es, i, errors) == ReadElements(f, src, q, depth, es, i, errors)
  {
    assert SkipCommentTokens(f, src, p) == SkipCommentTokens(f, src, q);
  }
}
