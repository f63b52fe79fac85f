/**
 What the reader makes of a stream of tokens, as functions of a position.  The
 class in module JsonReader computes these functions step by step; the theorems
 about reading are stated on them.
 */
module JsonGrammar {
  import opened Wrappers
  import opened Bytes
  import opened JsonValue
  import opened JsonLexer

  const STACK_LIMIT: nat := 1000

  datatype Features = Features(
    allowComments: bool, strictRoot: bool, allowDroppedNullPlaceholders: bool, allowNumericKeys: bool)

  /**
   A tokenized document: the token read from each position, and what the string or
   number token that begins there denotes.
   */
  datatype Source = Source(
    size: nat, tokens: seq<Token>, texts: seq<Option<bytes>>, numbers: seq<Option<Value>>)
  {
    function token(p: nat): Token {
      if p < |tokens| then tokens[p] else Token(EndOfStream, p, p)
    }

    function text(t: Token): Option<bytes> {
      if t.start < |texts| then texts[t.start] else None
    }

    function number(t: Token): Option<Value> {
      if t.start < |numbers| then numbers[t.start] else None
    }

    /** Reading a token goes forward; only the end of the stream uses up nothing. */
    ghost predicate Forward() {
      |tokens| == size + 1 && forall p | 0 <= p <= size :: Ahead(p, tokens[p])
    }

    predicate Ahead(p: nat, t: Token) {
      p <= t.start <= t.end <= size && (t.start == t.end ==> t.kind == EndOfStream)
    }
  }

  /** The source a document is, given the conversion of text to double. */
  function SourceOf(toDouble: bytes -> Option<real>, doc: bytes): Source {
    var n := |doc| + 1;
    Source(|doc|,
           seq(n, p requires 0 <= p < n => ReadToken(doc, p)),
           seq(n, p requires 0 <= p < n => DecodeStringToken(doc, ReadToken(doc, p))),
           seq(n, p requires 0 <= p < n => DecodeNumberToken(toDouble, doc, ReadToken(doc, p))))
  }

  lemma DocumentIsForward(toDouble: bytes -> Option<real>, doc: bytes)
    ensures SourceOf(toDouble, doc).Forward()
  {
  }

  /** From where a token begins it is read again. */
  lemma ReadAgain(doc: bytes, pos: nat)
    requires pos <= |doc|
    ensures ReadToken(doc, ReadToken(doc, pos).start) == ReadToken(doc, pos)
  {
  }

  /** The source is the tokenized document. */
  ghost predicate Tokenizes(src: Source, toDouble: bytes -> Option<real>, doc: bytes) {
    && src.size == |doc|
    && (forall p: nat {:trigger ReadToken(doc, p)} :: p <= |doc| ==> src.token(p) == ReadToken(doc, p))
    && (forall p: nat {:trigger DecodeStringToken(doc, ReadToken(doc, p))} :: p <= |doc| ==>
          src.text(ReadToken(doc, p)) == DecodeStringToken(doc, ReadToken(doc, p)))
    && (forall p: nat {:trigger DecodeNumberToken(toDouble, doc, ReadToken(doc, p))} :: p <= |doc| ==>
          src.number(ReadToken(doc, p)) == DecodeNumberToken(toDouble, doc, ReadToken(doc, p)))
  }

  lemma DocumentIsTokenized(toDouble: bytes -> Option<real>, doc: bytes)
    ensures SourceOf(toDouble, doc).Forward() && Tokenizes(SourceOf(toDouble, doc), toDouble, doc)
  {
    DocumentIsForward(toDouble, doc);
    forall p: nat | p <= |doc|
      ensures var src := SourceOf(toDouble, doc);
              var t := ReadToken(doc, p);
              && src.token(p) == t && src.text(t) == DecodeStringToken(doc, t)
              && src.number(t) == DecodeNumberToken(toDouble, doc, t)
    {
      ReadAgain(doc, p);
    }
  }

  /** The first token that is no comment. */
  function PastComments(src: Source, pos: nat): (t: Token)
    requires src.Forward() && pos <= src.size
    ensures src.Ahead(pos, t) && t.kind != Comment
    decreases src.size - pos
  {
    var t := src.token(pos);
    assert src.Ahead(pos, t);
    if t.kind == Comment then PastComments(src, t.end) else t
  }

  /** skipCommentTokens. */
  function SkipCommentTokens(f: Features, src: Source, pos: nat): (t: Token)
    requires src.Forward() && pos <= src.size
    ensures src.Ahead(pos, t)
  {
    if f.allowComments then PastComments(src, pos) else src.token(pos)
  }

  /** recoverFromError: behind the next token of the kind, or at the end of the stream. */
  function Recover(src: Source, pos: nat, until: TokenType): (p: nat)
    requires src.Forward() && pos <= src.size
    ensures pos <= p <= src.size
    decreases src.size - pos
  {
    var t := src.token(pos);
    assert src.Ahead(pos, t);
    if t.kind == until || t.kind == EndOfStream then t.end else Recover(src, t.end, until)
  }

  // ---------- values ----------

  /** An entry of the error list; message texts are not modelled. */
  datatype Error = Error(token: Token)

  datatype Exception = StackLimitExceeded | LogicError

  /** How reading a value ends: normally, with the value then stored, or by an exception. */
  datatype Outcome =
    | Done(ok: bool, value: Value, pos: nat, errors: seq<Error>)
    | Raised(exception: Exception)

  function Fail(src: Source, value: Value, t: Token, until: TokenType, errors: seq<Error>): Outcome
    requires src.Forward() && t.end <= src.size
  {
    Done(false, value, Recover(src, t.end, until), errors + [Error(t)])
  }

  /** readValue, with `depth` nodes on the stack and `v` stored in the topmost. */
  function ReadValue(f: Features, src: Source, pos: nat, depth: nat, v: Value, errors: seq<Error>): (r: Outcome)
    requires src.Forward() && pos <= src.size
    ensures r.Done? ==> pos <= r.pos <= src.size
    decreases src.size - pos, 1
  {
    if depth > STACK_LIMIT then Raised(StackLimitExceeded)
    else ReadFrom(f, src, SkipCommentTokens(f, src, pos), depth, v, errors)
  }

  /** readValue, from its first token on. */
  function ReadFrom(f: Features, src: Source, t: Token, depth: nat, v: Value, errors: seq<Error>): (r: Outcome)
    requires src.Forward() && src.Ahead(t.start, t)
    ensures r.Done? ==> t.start <= r.pos <= src.size
    decreases src.size - t.start, 0
  {
    match t.kind
    case ObjectBegin => ReadMembers(f, src, t.end, depth, [], [], errors)
    case ArrayBegin =>
      var next := src.token(t.end);
      assert src.Ahead(t.end, next);
      if next.kind == ArrayEnd then Done(true, ArrayV([]), next.end, errors)
      else ReadElements(f, src, t.end, depth, [], 0, errors)
    case NumberToken =>
      var n := src.number(t);
      if n.None? then Done(false, v, t.end, errors + [Error(t)]) else Done(true, n.value, t.end, errors)
    case StringToken =>
      var s := src.text(t);
      if s.None? then Done(false, v, t.end, errors + [Error(t)]) else Done(true, StringV(s.value), t.end, errors)
    case TrueToken => Done(true, BoolV(true), t.end, errors)
    case FalseToken => Done(true, BoolV(false), t.end, errors)
    case NullToken => Done(true, NullV, t.end, errors)
    case ArraySeparator | ObjectEnd | ArrayEnd =>
      // a dropped placeholder: the token is un-read and counts as null
      if f.allowDroppedNullPlaceholders then Done(true, NullV, t.end - 1, errors)
      else Done(false, v, t.end, errors + [Error(t)])
    case EndOfStream | MemberSeparator | Comment | ErrorToken => Done(false, v, t.end, errors + [Error(t)])
  }

  /** The element loop of readArray, at element i. */
  function ReadElements(f: Features, src: Source, pos: nat, depth: nat, es: seq<Entry>, i: nat,
                        errors: seq<Error>): (r: Outcome)
    requires src.Forward() && pos <= src.size
    ensures r.Done? ==> pos <= r.pos <= src.size
    decreases src.size - pos, 2
  {
    var r := ReadValue(f, src, pos, depth + 1, Get(es, Index(i)), errors);
    if r.Raised? then r
    else
      var es' := Put(es, Index(i), r.value);
      if !r.ok then Done(false, ArrayV(es'), Recover(src, r.pos, ArrayEnd), r.errors)
      else
        var t := PastComments(src, r.pos);
        if t.kind == ArrayEnd then Done(true, ArrayV(es'), t.end, r.errors)
        else if t.kind == ArraySeparator then ReadElements(f, src, t.end, depth, es', i + 1, r.errors)
        else Fail(src, ArrayV(es'), t, ArrayEnd, r.errors)
  }

  /** The member loop of readObject, with the name read last. */
  function ReadMembers(f: Features, src: Source, pos: nat, depth: nat, es: seq<Entry>, name: bytes,
                       errors: seq<Error>): (r: Outcome)
    requires src.Forward() && pos <= src.size
    ensures r.Done? ==> pos <= r.pos <= src.size
    decreases src.size - pos, 2
  {
    var t := PastComments(src, pos);
    if t.kind == ObjectEnd && name == [] then Done(true, ObjectV(es), t.end, errors)
    else if t.kind == StringToken then
      var s := src.text(t);
      if s.None? then Fail(src, ObjectV(es), t, ObjectEnd, errors)
      else ReadMember(f, src, t.end, depth, es, s.value, errors)
    else if t.kind == NumberToken && f.allowNumericKeys then
      // a decoded number is never a string, so taking its characters raises
      if src.number(t).None? then Fail(src, ObjectV(es), t, ObjectEnd, errors)
      else Raised(LogicError)
    else Fail(src, ObjectV(es), t, ObjectEnd, errors)
  }

  /** The tokens that may follow the value of a member. */
  predicate EndsMember(t: Token) {
    t.kind == ObjectEnd || t.kind == ArraySeparator || t.kind == Comment
  }

  /** One turn of that loop after the name: colon, value, comma. */
  function ReadMember(f: Features, src: Source, pos: nat, depth: nat, es: seq<Entry>, name: bytes,
                      errors: seq<Error>): (r: Outcome)
    requires src.Forward() && pos <= src.size
    ensures r.Done? ==> pos <= r.pos <= src.size
    decreases src.size - pos, 3
  {
    var colon := src.token(pos);
    assert src.Ahead(pos, colon);
    if colon.kind != MemberSeparator then Fail(src, ObjectV(es), colon, ObjectEnd, errors)
    else
      var r := ReadValue(f, src, colon.end, depth + 1, Get(es, Name(name)), errors);
      if r.Raised? then r
      else
        var es' := Put(es, Name(name), r.value);
        if !r.ok then Done(false, ObjectV(es'), Recover(src, r.pos, ObjectEnd), r.errors)
        else
          var comma := src.token(r.pos);
          assert src.Ahead(r.pos, comma);
          if !EndsMember(comma) then
            Fail(src, ObjectV(es'), comma, ObjectEnd, r.errors)
          else
            var comma' := if comma.kind == Comment then PastComments(src, comma.end) else comma;
            if comma'.kind == ObjectEnd then Done(true, ObjectV(es'), comma'.end, r.errors)
            else ReadMembers(f, src, comma'.end, depth, es', name, r.errors)
  }

  /** What a call of parse leaves behind. */
  datatype Parsed =
    | Result(ok: bool, root: Value, errors: seq<Error>)
    | Threw(exception: Exception)

  /** parse: one value, then nothing more is demanded of the document. */
  function Parse(f: Features, src: Source, root: Value): Parsed
    requires src.Forward()
  {
    var r := ReadValue(f, src, 0, 1, root, []);
    if r.Raised? then Threw(r.exception)
    else if f.strictRoot && !Container(r.value) then
      Result(false, r.value, r.errors + [Error(Token(ErrorToken, 0, src.size))])
    else Result(r.ok, r.value, r.errors)
  }

  // ---------- success means no error recorded ----------

  /** A token that can be read. */
  ghost predicate IsRead(src: Source, t: Token) {
    exists p: nat :: p <= src.size && src.token(p) == t
  }

  /** The errors stay as they are, or one about a token that can be read is added and the call reports failure. */
  ghost predicate Accounts(src: Source, r: Outcome, errors: seq<Error>) {
    r.Done? ==> if r.ok then r.errors == errors
                else |r.errors| == |errors| + 1 && errors <= r.errors && IsRead(src, r.errors[|errors|].token)
  }

  lemma {:induction false} CommentsPassedAreRead(src: Source, pos: nat)
    requires src.Forward() && pos <= src.size
    ensures IsRead(src, PastComments(src, pos))
    decreases src.size - pos
  {
    var t := src.token(pos);
    assert src.Ahead(pos, t);
    if t.kind == Comment { CommentsPassedAreRead(src, t.end); }
  }

  lemma {:induction false} ValueAccounts(f: Features, src: Source, pos: nat, depth: nat, v: Value, errors: seq<Error>)
    requires src.Forward() && pos <= src.size
    ensures Accounts(src, ReadValue(f, src, pos, depth, v, errors), errors)
    decreases src.size - pos, 0
  {
    if depth <= STACK_LIMIT {
      var t := SkipCommentTokens(f, src, pos);
      CommentsPassedAreRead(src, pos);
      assert ReadValue(f, src, pos, depth, v, errors) == ReadFrom(f, src, t, depth, v, errors);
      if t.kind == ObjectBegin {
        MembersAccount(f, src, t.end, depth, [], [], errors);
      } else if t.kind == ArrayBegin {
        ElementsAccount(f, src, t.end, depth, [], 0, errors);
      }
    }
  }

  lemma {:induction false} ElementsAccount(f: Features, src: Source, pos: nat, depth: nat, es: seq<Entry>, i: nat,
                                           errors: seq<Error>)
    requires src.Forward() && pos <= src.size
    ensures Accounts(src, ReadElements(f, src, pos, depth, es, i, errors), errors)
    decreases src.size - pos, 1
  {
    var r := ReadValue(f, src, pos, depth + 1, Get(es, Index(i)), errors);
    ValueAccounts(f, src, pos, depth + 1, Get(es, Index(i)), errors);
    if r.Done? && r.ok {
      var t := PastComments(src, r.pos);
      CommentsPassedAreRead(src, r.pos);
      if t.kind == ArraySeparator {
        ElementsAccount(f, src, t.end, depth, Put(es, Index(i), r.value), i + 1, r.errors);
      }
    }
  }

  lemma {:induction false} MembersAccount(f: Features, src: Source, pos: nat, depth: nat, es: seq<Entry>,
                                          name: bytes, errors: seq<Error>)
    requires src.Forward() && pos <= src.size
    ensures Accounts(src, ReadMembers(f, src, pos, depth, es, name, errors), errors)
    decreases src.size - pos, 1
  {
    var t := PastComments(src, pos);
    CommentsPassedAreRead(src, pos);
    if t.kind == StringToken {
      var s := src.text(t);
      if s.Some? {
        MemberAccounts(f, src, t.end, depth, es, s.value, errors);
      }
    }
  }

  lemma {:induction false} MemberAccounts(f: Features, src: Source, pos: nat, depth: nat, es: seq<Entry>,
                                          name: bytes, errors: seq<Error>)
    requires src.Forward() && pos <= src.size
    ensures Accounts(src, ReadMember(f, src, pos, depth, es, name, errors), errors)
    decreases src.size - pos, 3
  {
    var colon := src.token(pos);
    assert src.Ahead(pos, colon) && IsRead(src, colon);
    if colon.kind == MemberSeparator {
      var v := Get(es, Name(name));
      var r := ReadValue(f, src, colon.end, depth + 1, v, errors);
      ValueAccounts(f, src, colon.end, depth + 1, v, errors);
      if r.Done? && r.ok {
        var comma := src.token(r.pos);
        assert src.Ahead(r.pos, comma) && IsRead(src, comma);
        var comma' := if comma.kind == Comment then PastComments(src, comma.end) else comma;
        if EndsMember(comma) && comma'.kind != ObjectEnd {
          MembersAccount(f, src, comma'.end, depth, Put(es, Name(name), r.value), name, r.errors);
        }
      }
    }
  }

  /**
   parse returns true exactly when the reader is good() afterwards; it records at most one error about a token of the
   document, and the one about a root that is no container.
   */
  lemma ParseAccounts(f: Features, src: Source, root: Value)
    requires src.Forward()
    ensures var p := Parse(f, src, root);
            p.Result? ==>
              && (p.ok <==> p.errors == []) && |p.errors| <= 2
              && (p.errors != [] ==> IsRead(src, p.errors[0].token)
                                     || (f.strictRoot && p.errors == [Error(Token(ErrorToken, 0, src.size))]))
              && (|p.errors| == 2 ==> f.strictRoot && p.errors[1] == Error(Token(ErrorToken, 0, src.size)))
  {
    ValueAccounts(f, src, 0, 1, root, []);
  }
}
