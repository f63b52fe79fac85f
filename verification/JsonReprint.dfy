/**
 Reading first: whatever the reader returns, from any document at all, can be
 printed and read again, and comes back unchanged unless a string is not UTF-8.
 */
module JsonReprint {
  import opened Wrappers
  import opened Bytes
  import opened Utf8
  import opened JsonStrings
  import opened JsonNumbers
  import opened JsonValue
  import opened JsonWriter
  import opened JsonLexer
  import opened JsonGrammar
  import opened JsonTrees
  import opened JsonRoundTrip

  /** Integers of the reader's kinds, and arrays without holes. */
  predicate Settled(v: Value)
    decreases v
  {
    match v
    case IntV(i) => i <= MAX_INT
    case UIntV(u) => u > MAX_INT
    case ArrayV(es) => forall i | 0 <= i < |es| :: es[i].key == Index(i) && Settled(es[i].value)
    case ObjectV(es) => forall i | 0 <= i < |es| :: Settled(es[i].value)
    case _ => true
  }

  /** Strings and names in the domain of the string codec. */
  predicate Encodable(v: Value)
    decreases v
  {
    match v
    case StringV(s) => Representable(s)
    case ArrayV(es) => forall i | 0 <= i < |es| :: Encodable(es[i].value)
    case ObjectV(es) => forall i | 0 <= i < |es| :: Representable(KeyBytes(es[i].key)) && Encodable(es[i].value)
    case _ => true
  }

  // ---------- what the round trip leaves alone ----------

  lemma {:induction false} ItemsUnchanged(es: seq<Entry>, items: seq<Tree>, i: nat)
    requires |es| == |items|
    requires forall j | 0 <= j < |es| :: es[j] == Entry(Index(i + j), Meaning(items[j]))
    ensures Numbered(items, i) == es
    decreases |es|
  {
    if es != [] {
      ItemsUnchanged(es[1..], items[1..], i + 1);
    }
  }

  lemma {:induction false} MembersUnchanged(stored: seq<Entry>, es: seq<Entry>, members: seq<Member>)
    requires |es| == |members| && Sorted(stored + es)
    requires forall j | 0 <= j < |es| :: es[j] == Entry(Name(members[j].name), Meaning(members[j].value))
    ensures Stored(stored, members) == stored + es
    decreases |es|
  {
    if es != [] {
      forall e | e in stored ensures KeyLess(e.key, es[0].key) {
        var k :| 0 <= k < |stored| && stored[k] == e;
        assert (stored + es)[k] == e && (stored + es)[|stored|] == es[0];
      }
      PutAtEnd(stored, es[0].key, es[0].value);
      assert stored + [es[0]] + es[1..] == stored + es;
      MembersUnchanged(stored + [es[0]], es[1..], members[1..]);
    } else {
      assert stored + es == stored;
    }
  }

  lemma DenseIsDense(es: seq<Entry>, j: nat)
    requires Valid(ArrayV(es)) && Settled(ArrayV(es)) && j < |es|
    ensures Size(es) == |es| && Dense(es)[j] == es[j].value
  {
    EntryIsDense(es, j);
  }

  predicate ElementKept(es: seq<Entry>, j: nat)
    requires j < |es|
  {
    Size(es) == |es| && es[j] == Entry(Index(j), Normal(Dense(es)[j]))
  }

  lemma ElementIsRestored(es: seq<Entry>, j: nat)
    requires Valid(ArrayV(es)) && Settled(ArrayV(es)) && j < |es| && Normal(es[j].value) == es[j].value
    ensures ElementKept(es, j)
  {
    DenseIsDense(es, j);
  }

  /** An array whose elements come back unchanged does so too. */
  lemma ArrayIsRestored(es: seq<Entry>)
    requires Size(es) == |es| && forall j | 0 <= j < |es| :: ElementKept(es, j)
    ensures Normal(ArrayV(es)) == ArrayV(es)
  {
    var items := ItemTrees(Dense(es));
    forall j | 0 <= j < |es| ensures es[j] == Entry(Index(j), Meaning(items[j])) { assert ElementKept(es, j); }
    ContainerTree(es);
    ItemsUnchanged(es, items, 0);
  }

  predicate MemberKept(e: Entry) {
    e == Entry(Name(MemberTree(e).name), Meaning(MemberTree(e).value))
  }

  lemma MemberIsRestored(e: Entry)
    requires e.key.Name? && Representable(e.key.s) && Normal(e.value) == e.value
    ensures MemberKept(e)
  {
    RecodeIsIdentity(e.key.s);
  }

  lemma ObjectIsRestored(es: seq<Entry>)
    requires Sorted(es) && forall j | 0 <= j < |es| :: MemberKept(es[j])
    ensures Normal(ObjectV(es)) == ObjectV(es)
  {
    var members := MemberTrees(es);
    ContainerTree(es);
    assert [] + es == es;
    MembersUnchanged([], es, members);
  }

  lemma {:induction false} SettledIsRestored(v: Value)
    requires Valid(v) && Settled(v) && Encodable(v)
    ensures Normal(v) == v
    decreases v
  {
    match v
    case StringV(s) => RecodeIsIdentity(s);
    case ArrayV(es) =>
      forall j | 0 <= j < |es| ensures ElementKept(es, j) {
        SettledIsRestored(es[j].value);
        ElementIsRestored(es, j);
      }
      if es != [] { assert ElementKept(es, 0); }
      ArrayIsRestored(es);
    case ObjectV(es) =>
      forall j | 0 <= j < |es| ensures MemberKept(es[j]) {
        SettledIsRestored(es[j].value);
        MemberIsRestored(es[j]);
      }
      ObjectIsRestored(es);
    case _ =>
  }

  /** Such values, up to the nesting limit, are told apart by their text. */
  lemma TextIsInjective(st: Style, toDouble: bytes -> Option<real>, v: Value, w: Value)
    requires Text(st, v) == Text(st, w)
    requires Printable(st, toDouble, v) && Settled(v) && Encodable(v) && Depth(v) <= STACK_LIMIT
    requires Printable(st, toDouble, w) && Settled(w) && Encodable(w) && Depth(w) <= STACK_LIMIT
    ensures v == w
  {
    var f := Features(true, false, false, false);
    assert Text(st, v) + [] == Text(st, v);
    RoundTrip(f, toDouble, st, v, NullV, []);
    RoundTrip(f, toDouble, st, w, NullV, []);
    SettledIsRestored(v);
    SettledIsRestored(w);
  }

  // ---------- what the reader returns ----------

  /** Fit to be printed, settled, and within the nesting limit with this many nodes on the stack. */
  predicate Ordinary(depth: nat, v: Value) {
    Valid(v) && Settled(v) && Fits(depth, Depth(v))
  }

  ghost predicate OrdinaryNumbers(src: Source) {
    forall t: Token {:trigger src.number(t)} :: src.number(t).Some? ==>
      Valid(src.number(t).value) && Settled(src.number(t).value) && Depth(src.number(t).value) == 1
  }

  predicate OrdinaryOutcome(depth: nat, r: Outcome) {
    r.Done? ==> Ordinary(depth, r.value)
  }

  /** The elements stored so far. */
  predicate OrdinaryElements(depth: nat, es: seq<Entry>, i: nat) {
    |es| == i && forall j | 0 <= j < i :: es[j].key == Index(j) && Ordinary(depth + 1, es[j].value)
  }

  /** The members stored so far. */
  predicate OrdinaryMembers(depth: nat, es: seq<Entry>) {
    Sorted(es) && forall j | 0 <= j < |es| :: es[j].key.Name? && Ordinary(depth + 1, es[j].value)
  }

  lemma DocumentNumbers(toDouble: bytes -> Option<real>, doc: bytes)
    ensures OrdinaryNumbers(SourceOf(toDouble, doc))
  {
    forall t: Token | DecodeNumberToken(toDouble, doc, t).Some?
      ensures var v := DecodeNumberToken(toDouble, doc, t).value; Valid(v) && Settled(v) && Depth(v) == 1
    {
    }
  }

  lemma {:induction false} DepthBelow(es: seq<Entry>, d: nat)
    requires forall j | 0 <= j < |es| :: Depth(es[j].value) <= d
    ensures EntriesDepth(es) <= d
  {
    if es != [] {
      DepthBelow(es[1..], d);
    }
  }

  lemma ElementsAreArray(depth: nat, es: seq<Entry>, i: nat)
    requires depth <= STACK_LIMIT && OrdinaryElements(depth, es, i)
    ensures Ordinary(depth, ArrayV(es))
  {
    DepthBelow(es, STACK_LIMIT - depth);
  }

  lemma MembersAreObject(depth: nat, es: seq<Entry>)
    requires depth <= STACK_LIMIT && OrdinaryMembers(depth, es)
    ensures Ordinary(depth, ObjectV(es))
  {
    DepthBelow(es, STACK_LIMIT - depth);
  }

  lemma PutKeepsMembers(depth: nat, es: seq<Entry>, key: Key, v: Value)
    requires OrdinaryMembers(depth, es) && key.Name? && Ordinary(depth + 1, v)
    ensures OrdinaryMembers(depth, Put(es, key, v))
  {
    PutSorted(es, key, v);
    forall j | 0 <= j < |Put(es, key, v)|
      ensures Put(es, key, v)[j].key.Name? && Ordinary(depth + 1, Put(es, key, v)[j].value)
    {
      assert Put(es, key, v)[j] in Put(es, key, v);
    }
  }

  lemma GetIsOrdinary(depth: nat, es: seq<Entry>, key: Key)
    requires depth < STACK_LIMIT
    requires forall j | 0 <= j < |es| :: Ordinary(depth + 1, es[j].value)
    ensures Ordinary(depth + 1, Get(es, key))
  {
    FindIsEntry(es, key);
  }

  lemma {:induction false} ValueIsOrdinary(f: Features, src: Source, pos: nat, depth: nat, v: Value, errors: seq<Error>)
    requires src.Forward() && pos <= src.size && OrdinaryNumbers(src) && (depth <= STACK_LIMIT ==> Ordinary(depth, v))
    ensures OrdinaryOutcome(depth, ReadValue(f, src, pos, depth, v, errors))
    decreases src.size - pos, 0
  {
    if depth <= STACK_LIMIT {
      var t := SkipCommentTokens(f, src, pos);
      assert ReadValue(f, src, pos, depth, v, errors) == ReadFrom(f, src, t, depth, v, errors);
      if t.kind == ObjectBegin {
        MembersAreOrdinary(f, src, t.end, depth, [], [], errors);
      } else if t.kind == ArrayBegin {
        ElementsAreOrdinary(f, src, t.end, depth, [], 0, errors);
      }
    }
  }

  lemma {:induction false} ElementsAreOrdinary(f: Features, src: Source, pos: nat, depth: nat, es: seq<Entry>,
                                               i: nat, errors: seq<Error>)
    requires src.Forward() && pos <= src.size && OrdinaryNumbers(src)
    requires depth <= STACK_LIMIT && OrdinaryElements(depth, es, i)
    ensures OrdinaryOutcome(depth, ReadElements(f, src, pos, depth, es, i, errors))
    decreases src.size - pos, 1
  {
    var was := Get(es, Index(i));
    var r := ReadValue(f, src, pos, depth + 1, was, errors);
    if r.Done? {
      GetIsOrdinary(depth, es, Index(i));
      ValueIsOrdinary(f, src, pos, depth + 1, was, errors);
      PutAtEnd(es, Index(i), r.value);
      ElementsAreArray(depth, Put(es, Index(i), r.value), i + 1);
      var t := PastComments(src, r.pos);
      if r.ok && t.kind == ArraySeparator {
        ElementsAreOrdinary(f, src, t.end, depth, Put(es, Index(i), r.value), i + 1, r.errors);
      }
    }
  }

  lemma {:induction false} MembersAreOrdinary(f: Features, src: Source, pos: nat, depth: nat, es: seq<Entry>,
                                              name: bytes, errors: seq<Error>)
    requires src.Forward() && pos <= src.size && OrdinaryNumbers(src)
    requires depth <= STACK_LIMIT && OrdinaryMembers(depth, es)
    ensures OrdinaryOutcome(depth, ReadMembers(f, src, pos, depth, es, name, errors))
    decreases src.size - pos, 1
  {
    MembersAreObject(depth, es);
    var t := PastComments(src, pos);
    if t.kind == StringToken && src.text(t).Some? {
      MemberIsOrdinary(f, src, t.end, depth, es, src.text(t).value, errors);
    }
  }

  lemma {:induction false} MemberIsOrdinary(f: Features, src: Source, pos: nat, depth: nat, es: seq<Entry>,
                                            name: bytes, errors: seq<Error>)
    requires src.Forward() && pos <= src.size && OrdinaryNumbers(src)
    requires depth <= STACK_LIMIT && OrdinaryMembers(depth, es)
    ensures OrdinaryOutcome(depth, ReadMember(f, src, pos, depth, es, name, errors))
    decreases src.size - pos, 2
  {
    MembersAreObject(depth, es);
    var colon, was := src.token(pos), Get(es, Name(name));
    assert src.Ahead(pos, colon);
    if colon.kind == MemberSeparator {
      var r := ReadValue(f, src, colon.end, depth + 1, was, errors);
      if r.Done? {
        GetIsOrdinary(depth, es, Name(name));
        ValueIsOrdinary(f, src, colon.end, depth + 1, was, errors);
        PutKeepsMembers(depth, es, Name(name), r.value);
        MembersAreObject(depth, Put(es, Name(name), r.value));
        var comma := src.token(r.pos);
        assert src.Ahead(r.pos, comma);
        var comma' := if comma.kind == Comment then PastComments(src, comma.end) else comma;
        if r.ok && comma.kind in {ObjectEnd, ArraySeparator, Comment} && comma'.kind != ObjectEnd {
          MembersAreOrdinary(f, src, comma'.end, depth, Put(es, Name(name), r.value), name, r.errors);
        }
      }
    }
  }

  /** From any document: what the reader returns, well read or not, can be printed and read again. */
  lemma ReadPrintRead(f: Features, toDouble: bytes -> Option<real>, doc: bytes, root: Value,
                      f': Features, st: Style, root': Value)
    requires Ordinary(1, root) && Standard(st)
    ensures SourceOf(toDouble, doc).Forward()
    ensures var p := Parse(f, SourceOf(toDouble, doc), root);
            p.Result? ==>
              && Ordinary(1, p.root)
              && (RealsReadBack(st, toDouble, p.root) ==>
                  && SourceOf(toDouble, Text(st, p.root)).Forward()
                  && var q := Parse(f', SourceOf(toDouble, Text(st, p.root)), root');
                  && q.Result? && q.root == Normal(p.root) && (Encodable(p.root) ==> q.root == p.root)
                  && (q.ok <==> !f'.strictRoot || Container(p.root)))
  {
    var src := SourceOf(toDouble, doc);
    DocumentIsForward(toDouble, doc);
    DocumentNumbers(toDouble, doc);
    ValueIsOrdinary(f, src, 0, 1, root, []);
    var p := Parse(f, src, root);
    if p.Result? && RealsReadBack(st, toDouble, p.root) {
      assert Text(st, p.root) + [] == Text(st, p.root);
      RoundTrip(f', toDouble, st, p.root, root', []);
      if Encodable(p.root) { SettledIsRestored(p.root); }
    }
  }

  // ---------- which exceptions can escape ----------

  predicate OnlyStackLimit(r: Outcome) {
    r.Raised? ==> r.exception == StackLimitExceeded
  }

  lemma {:induction false} ValueRaises(f: Features, src: Source, pos: nat, depth: nat, v: Value, errors: seq<Error>)
    requires src.Forward() && pos <= src.size && !f.allowNumericKeys
    ensures OnlyStackLimit(ReadValue(f, src, pos, depth, v, errors))
    decreases src.size - pos, 0
  {
    if depth <= STACK_LIMIT {
      var t := SkipCommentTokens(f, src, pos);
      assert ReadValue(f, src, pos, depth, v, errors) == ReadFrom(f, src, t, depth, v, errors);
      if t.kind == ObjectBegin {
        MembersRaise(f, src, t.end, depth, [], [], errors);
      } else if t.kind == ArrayBegin {
        ElementsRaise(f, src, t.end, depth, [], 0, errors);
      }
    }
  }

  lemma {:induction false} ElementsRaise(f: Features, src: Source, pos: nat, depth: nat, es: seq<Entry>, i: nat,
                                         errors: seq<Error>)
    requires src.Forward() && pos <= src.size && !f.allowNumericKeys
    ensures OnlyStackLimit(ReadElements(f, src, pos, depth, es, i, errors))
    decreases src.size - pos, 1
  {
    var was := Get(es, Index(i));
    var r := ReadValue(f, src, pos, depth + 1, was, errors);
    ValueRaises(f, src, pos, depth + 1, was, errors);
    if r.Done? && r.ok {
      var t := PastComments(src, r.pos);
      if t.kind == ArraySeparator {
        ElementsRaise(f, src, t.end, depth, Put(es, Index(i), r.value), i + 1, r.errors);
      }
    }
  }

  lemma {:induction false} MembersRaise(f: Features, src: Source, pos: nat, depth: nat, es: seq<Entry>, name: bytes,
                                        errors: seq<Error>)
    requires src.Forward() && pos <= src.size && !f.allowNumericKeys
    ensures OnlyStackLimit(ReadMembers(f, src, pos, depth, es, name, errors))
    decreases src.size - pos, 1
  {
    var t := PastComments(src, pos);
    if t.kind == StringToken && src.text(t).Some? {
      MemberRaises(f, src, t.end, depth, es, src.text(t).value, errors);
    }
  }

  lemma {:induction false} MemberRaises(f: Features, src: Source, pos: nat, depth: nat, es: seq<Entry>, name: bytes,
                                        errors: seq<Error>)
    requires src.Forward() && pos <= src.size && !f.allowNumericKeys
    ensures OnlyStackLimit(ReadMember(f, src, pos, depth, es, name, errors))
    decreases src.size - pos, 2
  {
    var colon, was := src.token(pos), Get(es, Name(name));
    assert src.Ahead(pos, colon);
    if colon.kind == MemberSeparator {
      var r := ReadValue(f, src, colon.end, depth + 1, was, errors);
      ValueRaises(f, src, colon.end, depth + 1, was, errors);
      if r.Done? && r.ok {
        var comma := src.token(r.pos);
        assert src.Ahead(r.pos, comma);
        var comma' := if comma.kind == Comment then PastComments(src, comma.end) else comma;
        if comma.kind in {ObjectEnd, ArraySeparator, Comment} && comma'.kind != ObjectEnd {
          MembersRaise(f, src, comma'.end, depth, Put(es, Name(name), r.value), name, r.errors);
        }
      }
    }
  }

  /** With numeric member names allowed, this document makes parse raise. */
  const NUMERIC_NAME: bytes := [LBRACE, ZERO]

  /** Apart from the nesting limit no exception escapes from parse, exactly when numeric member names are off. */
  lemma OtherExceptions(f: Features, toDouble: bytes -> Option<real>)
    ensures (forall doc: bytes :: SourceOf(toDouble, doc).Forward())
    ensures !f.allowNumericKeys
            <==> forall doc: bytes, root: Value :: Parse(f, SourceOf(toDouble, doc), root) != Threw(LogicError)
  {
    forall doc: bytes ensures SourceOf(toDouble, doc).Forward() { DocumentIsForward(toDouble, doc); }
    if f.allowNumericKeys {
      NumericNameRaises(f, toDouble);
    } else {
      forall doc: bytes, root: Value ensures Parse(f, SourceOf(toDouble, doc), root) != Threw(LogicError) {
        ValueRaises(f, SourceOf(toDouble, doc), 0, 1, root, []);
      }
    }
  }

  lemma NumericNameTokens(toDouble: bytes -> Option<real>)
    ensures var src := SourceOf(toDouble, NUMERIC_NAME);
            && src.token(0) == Token(ObjectBegin, 0, 1) && src.token(1) == Token(NumberToken, 1, 2)
            && src.number(Token(NumberToken, 1, 2)) == Some(IntV(0))
  {
    DocumentIsTokenized(toDouble, NUMERIC_NAME);
    assert ReadToken(NUMERIC_NAME, 0) == Token(ObjectBegin, 0, 1);
    assert DigitsEnd(NUMERIC_NAME, 2) == 2;
    assert ReadToken(NUMERIC_NAME, 1) == Token(NumberToken, 1, 2);
    assert NUMERIC_NAME[1..2] == [ZERO];
    IntegerRoundTrip(0);
    assert SignedDecimal(0) == [ZERO];
  }

  lemma NumberAsNameRaises(f: Features, src: Source)
    requires f.allowNumericKeys && src.Forward() && src.size >= 2
    requires src.token(0) == Token(ObjectBegin, 0, 1) && src.token(1) == Token(NumberToken, 1, 2)
    requires src.number(Token(NumberToken, 1, 2)).Some?
    ensures Parse(f, src, NullV) == Threw(LogicError)
  {
    assert PastComments(src, 1) == Token(NumberToken, 1, 2);
    assert ReadMembers(f, src, 1, 1, [], [], []) == Raised(LogicError);
    assert SkipCommentTokens(f, src, 0) == src.token(0);
    assert ReadValue(f, src, 0, 1, NullV, []) == ReadFrom(f, src, src.token(0), 1, NullV, []) == Raised(LogicError);
  }

  lemma NumericNameRaises(f: Features, toDouble: bytes -> Option<real>)
    requires f.allowNumericKeys && SourceOf(toDouble, NUMERIC_NAME).Forward()
    ensures Parse(f, SourceOf(toDouble, NUMERIC_NAME), NullV) == Threw(LogicError)
  {
    NumericNameTokens(toDouble);
    NumberAsNameRaises(f, SourceOf(toDouble, NUMERIC_NAME));
  }
}
