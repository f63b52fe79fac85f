/**
 Syntax trees of JSON, what they mean, and the grammar as a relation: the tokens
 from one position to another spell a tree.  Spelled trees are read as what they
 mean.
 */
module JsonTrees {
  import opened Wrappers
  import opened Bytes
  import opened JsonValue
  import opened JsonLexer
  import opened JsonGrammar

  datatype Tree =
    | NullT
    | BoolT(b: bool)
    | NumberT(number: Value)
    | StringT(s: bytes)
    | ArrayT(items: seq<Tree>)
    | ObjectT(members: seq<Member>)

  datatype Member = Member(name: bytes, value: Tree)

  // ---------- what a tree means ----------

  function Meaning(t: Tree): Value
    decreases t
  {
    match t
    case NullT => NullV
    case BoolT(b) => BoolV(b)
    case NumberT(number) => number
    case StringT(s) => StringV(s)
    case ArrayT(items) => ArrayV(Numbered(items, 0))
    case ObjectT(members) => ObjectV(Stored([], members))
  }

  /** The elements as entries numbered from i on. */
  function Numbered(items: seq<Tree>, i: nat): seq<Entry>
    decreases items
  {
    if items == [] then [] else [Entry(Index(i), Meaning(items[0]))] + Numbered(items[1..], i + 1)
  }

  /** The members stored one after the other; a name that occurs again overwrites. */
  function Stored(stored: seq<Entry>, members: seq<Member>): seq<Entry>
    decreases members
  {
    if members == [] then stored
    else Stored(Put(stored, Name(members[0].name), MemberMeaning(members[0])), members[1..])
  }

  function MemberMeaning(m: Member): Value
    decreases m
  {
    Meaning(m.value)
  }

  function Nesting(t: Tree): (n: nat)
    ensures n >= 1
    decreases t
  {
    match t
    case ArrayT(items) => 1 + ItemsNesting(items)
    case ObjectT(members) => 1 + MembersNesting(members)
    case _ => 1
  }

  function ItemsNesting(items: seq<Tree>): nat
    decreases items
  {
    if items == [] then 0 else Max(Nesting(items[0]), ItemsNesting(items[1..]))
  }

  function MembersNesting(members: seq<Member>): nat
    decreases members
  {
    if members == [] then 0 else Max(MemberNesting(members[0]), MembersNesting(members[1..]))
  }

  function MemberNesting(m: Member): nat
    decreases m
  {
    Nesting(m.value)
  }

  // ---------- the grammar ----------

  /** From pos on the tokens spell the tree, the last one ending at `end`. */
  ghost predicate Spells(src: Source, pos: nat, t: Tree, end: nat)
    decreases t, 1
  {
    var k := src.token(pos);
    match t
    case NullT => k.kind == NullToken && k.end == end
    case BoolT(b) => k.kind == (if b then TrueToken else FalseToken) && k.end == end
    case NumberT(number) => k.kind == NumberToken && k.end == end && src.number(k) == Some(number)
    case StringT(s) => k.kind == StringToken && k.end == end && src.text(k) == Some(s)
    case ArrayT(items) =>
      k.kind == ArrayBegin
      && if items == [] then src.token(k.end).kind == ArrayEnd && src.token(k.end).end == end
         else SpellsItems(src, k.end, items, end)
    case ObjectT(members) =>
      k.kind == ObjectBegin
      && if members == [] then src.token(k.end).kind == ObjectEnd && src.token(k.end).end == end
         else SpellsMembers(src, k.end, members, end)
  }

  ghost predicate SpellsItems(src: Source, pos: nat, items: seq<Tree>, end: nat)
    requires items != []
    decreases items, 1
  {
    exists q: nat :: SpellsItemsVia(src, pos, items, end, q)
  }

  /** The first element ends at q. */
  ghost predicate SpellsItemsVia(src: Source, pos: nat, items: seq<Tree>, end: nat, q: nat)
    requires items != []
    decreases items, 0
  {
    && pos <= q <= src.size && Spells(src, pos, items[0], q)
    && if |items| == 1 then src.token(q).kind == ArrayEnd && src.token(q).end == end
       else src.token(q).kind == ArraySeparator && SpellsItems(src, src.token(q).end, items[1..], end)
  }

  /** The closing brace; behind a member named by the empty string a comma may stand in front of it. */
  predicate EndsObject(src: Source, q: nat, name: bytes, end: nat) {
    var t := src.token(q);
    || (t.kind == ObjectEnd && t.end == end)
    || (name == [] && t.kind == ArraySeparator && src.token(t.end).kind == ObjectEnd && src.token(t.end).end == end)
  }

  ghost predicate SpellsMembers(src: Source, pos: nat, members: seq<Member>, end: nat)
    requires members != []
    decreases members, 1
  {
    exists q: nat :: SpellsMembersVia(src, pos, members, end, q)
  }

  /** The first member ends at q. */
  ghost predicate SpellsMembersVia(src: Source, pos: nat, members: seq<Member>, end: nat, q: nat)
    requires members != []
    decreases members, 0
  {
    && q <= src.size && SpellsMember(src, pos, members[0], q)
    && if |members| == 1 then EndsObject(src, q, members[0].name, end)
       else src.token(q).kind == ArraySeparator && SpellsMembers(src, src.token(q).end, members[1..], end)
  }

  /** One member: its name, the colon, and its value up to q. */
  ghost predicate SpellsMember(src: Source, pos: nat, m: Member, q: nat)
    decreases m, 0
  {
    var name := src.token(pos);
    var colon := src.token(name.end);
    && name.kind == StringToken && src.text(name) == Some(m.name)
    && colon.kind == MemberSeparator && colon.end <= q && Spells(src, colon.end, m.value, q)
  }

  // ---------- spelled trees are read ----------

  /** So many levels fit the stack limit with this many nodes on the stack. */
  predicate Fits(depth: nat, nesting: nat) {
    depth + nesting - 1 <= STACK_LIMIT
  }

  /** What reading a spelled tree must yield. */
  function Expected(depth: nat, t: Tree, end: nat, errors: seq<Error>): Outcome {
    if Fits(depth, Nesting(t)) then Done(true, Meaning(t), end, errors) else Raised(StackLimitExceeded)
  }

  function ExpectedItems(depth: nat, es: seq<Entry>, i: nat, items: seq<Tree>, end: nat, errors: seq<Error>): Outcome {
    if Fits(depth + 1, ItemsNesting(items)) then Done(true, ArrayV(es + Numbered(items, i)), end, errors)
    else Raised(StackLimitExceeded)
  }

  function ExpectedMembers(depth: nat, stored: seq<Entry>, members: seq<Member>, end: nat, errors: seq<Error>): Outcome {
    if Fits(depth + 1, MembersNesting(members)) then Done(true, ObjectV(Stored(stored, members)), end, errors)
    else Raised(StackLimitExceeded)
  }

  predicate KeysBelow(es: seq<Entry>, i: nat) {
    forall e | e in es :: KeyLess(e.key, Index(i))
  }

  /** From the expectation for the remaining elements to the one for all. */
  lemma ExpectedItemsStep(depth: nat, es: seq<Entry>, i: nat, items: seq<Tree>, end: nat, errors: seq<Error>)
    requires items != []
    ensures var es' := es + [Entry(Index(i), Meaning(items[0]))];
            ExpectedItems(depth, es, i, items, end, errors)
            == if !Fits(depth + 1, Nesting(items[0])) then Raised(StackLimitExceeded)
               else if |items| == 1 then Done(true, ArrayV(es'), end, errors)
               else ExpectedItems(depth, es', i + 1, items[1..], end, errors)
  {
    var es' := es + [Entry(Index(i), Meaning(items[0]))];
    assert ItemsNesting(items) == Max(Nesting(items[0]), ItemsNesting(items[1..]));
    assert es + Numbered(items, i) == es' + Numbered(items[1..], i + 1);
    if |items| == 1 {
      assert items[1..] == [] && Numbered(items[1..], i + 1) == [] && ItemsNesting(items[1..]) == 0;
      assert es' + [] == es';
    }
  }

  lemma ExpectedMembersStep(depth: nat, stored: seq<Entry>, members: seq<Member>, end: nat, errors: seq<Error>)
    requires members != []
    ensures var stored' := Put(stored, Name(members[0].name), Meaning(members[0].value));
            ExpectedMembers(depth, stored, members, end, errors)
            == if !Fits(depth + 1, Nesting(members[0].value)) then Raised(StackLimitExceeded)
               else if |members| == 1 then Done(true, ObjectV(stored'), end, errors)
               else ExpectedMembers(depth, stored', members[1..], end, errors)
  {
    var stored' := Put(stored, Name(members[0].name), MemberMeaning(members[0]));
    assert MembersNesting(members) == Max(Nesting(members[0].value), MembersNesting(members[1..]));
    if |members| == 1 {
      assert members[1..] == [] && Stored(stored', members[1..]) == stored' && MembersNesting(members[1..]) == 0;
    }
  }

  lemma ScalarIsRead(f: Features, src: Source, pos: nat, depth: nat, was: Value, errors: seq<Error>, t: Tree, end: nat)
    requires src.Forward() && pos <= src.size && !t.ArrayT? && !t.ObjectT? && Spells(src, pos, t, end)
    ensures ReadValue(f, src, pos, depth, was, errors) == Expected(depth, t, end, errors)
  {
    assert src.Ahead(pos, src.token(pos));
    assert SkipCommentTokens(f, src, pos) == src.token(pos);
  }

  lemma {:induction false} ArrayIsRead(f: Features, src: Source, pos: nat, depth: nat, was: Value, errors: seq<Error>,
                                       items: seq<Tree>, end: nat)
    requires src.Forward() && pos <= src.size && Spells(src, pos, ArrayT(items), end)
    ensures ReadValue(f, src, pos, depth, was, errors) == Expected(depth, ArrayT(items), end, errors)
    decreases ArrayT(items), 0
  {
    var t := src.token(pos);
    assert src.Ahead(pos, t);
    assert depth <= STACK_LIMIT ==> ReadValue(f, src, pos, depth, was, errors) == ReadFrom(f, src, t, depth, was, errors);
    if items != [] {
      ItemsAreRead(f, src, t.end, depth, [], 0, errors, items, end);
      assert [] + Numbered(items, 0) == Numbered(items, 0);
    }
  }

  lemma {:induction false} ObjectIsRead(f: Features, src: Source, pos: nat, depth: nat, was: Value, errors: seq<Error>,
                                        members: seq<Member>, end: nat)
    requires src.Forward() && pos <= src.size && Spells(src, pos, ObjectT(members), end)
    ensures ReadValue(f, src, pos, depth, was, errors) == Expected(depth, ObjectT(members), end, errors)
    decreases ObjectT(members), 0
  {
    var t := src.token(pos);
    assert src.Ahead(pos, t);
    assert depth <= STACK_LIMIT ==> ReadValue(f, src, pos, depth, was, errors) == ReadFrom(f, src, t, depth, was, errors);
    if members == [] {
      assert src.Ahead(t.end, src.token(t.end));
      assert ReadMembers(f, src, t.end, depth, [], [], errors) == Done(true, ObjectV([]), end, errors) by {
        assert PastComments(src, t.end) == src.token(t.end);
      }
    } else {
      MembersAreRead(f, src, t.end, depth, [], [], errors, members, end);
    }
  }

  /** A spelled tree is read whole and as what it means, or raises when it is nested too deeply. */
  lemma {:induction false} TreeIsRead(f: Features, src: Source, pos: nat, depth: nat, was: Value, errors: seq<Error>,
                                      t: Tree, end: nat)
    requires src.Forward() && pos <= src.size && Spells(src, pos, t, end)
    ensures ReadValue(f, src, pos, depth, was, errors) == Expected(depth, t, end, errors)
    decreases t, 1
  {
    match t
    case ArrayT(items) => ArrayIsRead(f, src, pos, depth, was, errors, items, end);
    case ObjectT(members) => ObjectIsRead(f, src, pos, depth, was, errors, members, end);
    case _ => ScalarIsRead(f, src, pos, depth, was, errors, t, end);
  }

  /** One turn of the element loop, on a tree that reads as expected. */
  lemma ElementTurn(f: Features, src: Source, pos: nat, depth: nat, es: seq<Entry>, i: nat, errors: seq<Error>,
                    t: Tree, q: nat)
    requires src.Forward() && pos <= src.size && q <= src.size && KeysBelow(es, i)
    requires src.token(q).kind in {ArrayEnd, ArraySeparator}
    requires ReadValue(f, src, pos, depth + 1, Get(es, Index(i)), errors) == Expected(depth + 1, t, q, errors)
    ensures src.Ahead(q, src.token(q))
    ensures var es' := es + [Entry(Index(i), Meaning(t))];
            ReadElements(f, src, pos, depth, es, i, errors)
            == if !Fits(depth + 1, Nesting(t)) then Raised(StackLimitExceeded)
               else if src.token(q).kind == ArrayEnd then Done(true, ArrayV(es'), src.token(q).end, errors)
               else ReadElements(f, src, src.token(q).end, depth, es', i + 1, errors)
  {
    assert src.Ahead(q, src.token(q));
    PutAtEnd(es, Index(i), Meaning(t));
  }

  lemma NotAClosingBracket(src: Source, pos: nat, t: Tree, end: nat)
    requires Spells(src, pos, t, end)
    ensures src.token(pos).kind != ArrayEnd
  {
  }

  lemma KeysBelowNext(es: seq<Entry>, i: nat, v: Value)
    requires KeysBelow(es, i)
    ensures KeysBelow(es + [Entry(Index(i), v)], i + 1)
  {
  }

  lemma {:induction false} ItemsAreRead(f: Features, src: Source, pos: nat, depth: nat, es: seq<Entry>, i: nat,
                                        errors: seq<Error>, items: seq<Tree>, end: nat)
    requires src.Forward() && pos <= src.size && items != [] && KeysBelow(es, i)
    requires SpellsItems(src, pos, items, end)
    ensures ReadElements(f, src, pos, depth, es, i, errors) == ExpectedItems(depth, es, i, items, end, errors)
    ensures src.token(pos).kind != ArrayEnd
    decreases items, 0
  {
    var q: nat :| SpellsItemsVia(src, pos, items, end, q);
    TreeIsRead(f, src, pos, depth + 1, Get(es, Index(i)), errors, items[0], q);
    ElementTurn(f, src, pos, depth, es, i, errors, items[0], q);
    ExpectedItemsStep(depth, es, i, items, end, errors);
    NotAClosingBracket(src, pos, items[0], q);
    if |items| > 1 && Fits(depth + 1, Nesting(items[0])) {
      KeysBelowNext(es, i, Meaning(items[0]));
      ItemsAreRead(f, src, src.token(q).end, depth, es + [Entry(Index(i), Meaning(items[0]))], i + 1, errors, items[1..], end);
    }
  }

  /** One turn of the member loop, on a tree that reads as expected. */
  lemma MemberTurn(f: Features, src: Source, pos: nat, depth: nat, stored: seq<Entry>, name: bytes, errors: seq<Error>,
                   key: bytes, t: Tree, q: nat)
    requires src.Forward() && pos <= src.size && q <= src.size && src.token(q).kind in {ObjectEnd, ArraySeparator}
    requires src.token(pos).kind == StringToken && src.text(src.token(pos)) == Some(key)
    requires src.Ahead(pos, src.token(pos)) && src.token(src.token(pos).end).kind == MemberSeparator
    requires src.Ahead(src.token(pos).end, src.token(src.token(pos).end))
    requires ReadValue(f, src, src.token(src.token(pos).end).end, depth + 1, Get(stored, Name(key)), errors)
             == Expected(depth + 1, t, q, errors)
    ensures src.Ahead(q, src.token(q))
    ensures var stored' := Put(stored, Name(key), Meaning(t));
            ReadMembers(f, src, pos, depth, stored, name, errors)
            == if !Fits(depth + 1, Nesting(t)) then Raised(StackLimitExceeded)
               else if src.token(q).kind == ObjectEnd then Done(true, ObjectV(stored'), src.token(q).end, errors)
               else ReadMembers(f, src, src.token(q).end, depth, stored', key, errors)
  {
    assert src.Ahead(q, src.token(q));
  }

  /** Behind the member read last, where a closing brace may follow. */
  lemma ObjectEnds(f: Features, src: Source, pos: nat, depth: nat, stored: seq<Entry>, errors: seq<Error>)
    requires src.Forward() && pos <= src.size && src.token(pos).kind == ObjectEnd
    ensures ReadMembers(f, src, pos, depth, stored, [], errors) == Done(true, ObjectV(stored), src.token(pos).end, errors)
  {
    assert PastComments(src, pos) == src.token(pos);
  }

  lemma {:induction false} MembersAreRead(f: Features, src: Source, pos: nat, depth: nat, stored: seq<Entry>,
                                          name: bytes, errors: seq<Error>, members: seq<Member>, end: nat)
    requires src.Forward() && pos <= src.size && members != []
    requires SpellsMembers(src, pos, members, end)
    ensures ReadMembers(f, src, pos, depth, stored, name, errors)
            == ExpectedMembers(depth, stored, members, end, errors)
    decreases members, 0
  {
    var q: nat :| SpellsMembersVia(src, pos, members, end, q);
    var m, colon := members[0], src.token(src.token(pos).end);
    assert SpellsMember(src, pos, m, q);
    assert src.Ahead(pos, src.token(pos));
    assert src.Ahead(src.token(pos).end, colon);
    MemberValueIsRead(f, src, colon.end, depth + 1, Get(stored, Name(m.name)), errors, m, q);
    MemberTurn(f, src, pos, depth, stored, name, errors, m.name, m.value, q);
    ExpectedMembersStep(depth, stored, members, end, errors);
    if Fits(depth + 1, Nesting(m.value)) {
      var stored' := Put(stored, Name(m.name), Meaning(m.value));
      if |members| > 1 {
        MembersAreRead(f, src, src.token(q).end, depth, stored', m.name, errors, members[1..], end);
      } else if src.token(q).kind == ArraySeparator {
        ObjectEnds(f, src, src.token(q).end, depth, stored', errors);
      }
    }
  }

  lemma {:induction false} MemberValueIsRead(f: Features, src: Source, pos: nat, depth: nat, was: Value,
                                             errors: seq<Error>, m: Member, end: nat)
    requires src.Forward() && pos <= src.size && Spells(src, pos, m.value, end)
    ensures ReadValue(f, src, pos, depth, was, errors) == Expected(depth, m.value, end, errors)
    decreases m, 1
  {
    TreeIsRead(f, src, pos, depth, was, errors, m.value, end);
  }

  /** A document that begins with a spelled tree is parsed as what the tree means. */
  lemma TreeIsParsed(f: Features, src: Source, t: Tree, was: Value, pos: nat, end: nat)
    requires src.Forward() && pos <= src.size && Spells(src, pos, t, end)
    requires ReadValue(f, src, 0, 1, was, []) == ReadValue(f, src, pos, 1, was, [])
    ensures var p := Parse(f, src, was);
            if Nesting(t) > STACK_LIMIT then p == Threw(StackLimitExceeded)
            else p.Result? && p.root == Meaning(t) && (p.ok <==> !f.strictRoot || Container(Meaning(t)))
  {
    TreeIsRead(f, src, pos, 1, was, [], t, end);
  }
}
