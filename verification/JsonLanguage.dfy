/**
 Which documents are accepted: without comments and dropped placeholders, exactly
 those whose tokens spell a tree that is not nested too deeply.
 */
module JsonLanguage {
  import opened Wrappers
  import opened Bytes
  import opened JsonValue
  import opened JsonLexer
  import opened JsonGrammar
  import opened JsonAcceptance
  import opened JsonTrees
  import opened JsonTexts

  ghost predicate NoComments(src: Source) {
    forall p: nat {:trigger src.token(p)} :: src.token(p).kind != Comment
  }

  /** No slash in the document is followed by a star or a slash. */
  predicate NoCommentSigns(doc: bytes) {
    forall i | 0 <= i < |doc| - 1 :: doc[i] == 0x2F ==> doc[i + 1] != 0x2A && doc[i + 1] != 0x2F
  }

  lemma NoSignsNoComments(src: Source, doc: bytes)
    requires Lexes(src, doc) && NoCommentSigns(doc) && src.Forward() && src.size == |doc|
    ensures NoComments(src)
  {
    forall p: nat ensures src.token(p).kind != Comment {
      if p <= |doc| {
        assert src.token(p) == ReadToken(doc, p);
      }
    }
  }

  lemma NothingSkipped(f: Features, src: Source, pos: nat)
    requires src.Forward() && pos <= src.size && NoComments(src)
    ensures PastComments(src, pos) == src.token(pos) && SkipCommentTokens(f, src, pos) == src.token(pos)
    ensures src.Ahead(pos, src.token(pos))
  {
  }

  /** What the members read so far and those still to come amount to. */
  ghost predicate Ends(src: Source, pos: nat, name: bytes, members: seq<Member>, end: nat) {
    if members == [] then name == [] && src.token(pos).kind == ObjectEnd && src.token(pos).end == end
    else SpellsMembers(src, pos, members, end)
  }

  // ---------- what is accepted is spelled ----------

  lemma {:induction false} ValueIsSpelled(f: Features, src: Source, pos: nat, depth: nat, r: Reading) returns (t: Tree)
    requires src.Forward() && pos <= src.size && NoComments(src) && !f.allowDroppedNullPlaceholders
    requires AcceptValue(f, src, pos, depth) == Some(r)
    ensures Spells(src, pos, t, r.pos) && Meaning(t) == r.root && Fits(depth, Nesting(t))
    decreases src.size - pos, 1
  {
    NothingSkipped(f, src, pos);
    var k := src.token(pos);
    assert AcceptFrom(f, src, k, depth) == Some(r);
    if k.kind == ArrayBegin {
      t := ArrayIsSpelled(f, src, pos, depth, r);
    } else if k.kind == ObjectBegin {
      t := ObjectIsSpelled(f, src, pos, depth, r);
    } else {
      t := ScalarIsSpelled(f, src, pos, depth, r);
    }
  }

  lemma ScalarIsSpelled(f: Features, src: Source, pos: nat, depth: nat, r: Reading) returns (t: Tree)
    requires src.Forward() && pos <= src.size && !f.allowDroppedNullPlaceholders && depth <= STACK_LIMIT
    requires src.Ahead(pos, src.token(pos)) && AcceptFrom(f, src, src.token(pos), depth) == Some(r)
    requires src.token(pos).kind != ArrayBegin && src.token(pos).kind != ObjectBegin
    ensures Spells(src, pos, t, r.pos) && Meaning(t) == r.root && Fits(depth, Nesting(t))
  {
    var k := src.token(pos);
    match k.kind
    case NumberToken => t := NumberT(r.root);
    case StringToken => t := StringT(src.text(k).value);
    case TrueToken => t := BoolT(true);
    case FalseToken => t := BoolT(false);
    case _ => t := NullT;
  }

  lemma {:induction false} ArrayIsSpelled(f: Features, src: Source, pos: nat, depth: nat, r: Reading) returns (t: Tree)
    requires src.Forward() && pos <= src.size && NoComments(src) && !f.allowDroppedNullPlaceholders
    requires depth <= STACK_LIMIT && src.token(pos).kind == ArrayBegin && src.Ahead(pos, src.token(pos))
    requires AcceptFrom(f, src, src.token(pos), depth) == Some(r)
    ensures Spells(src, pos, t, r.pos) && Meaning(t) == r.root && Fits(depth, Nesting(t))
    decreases src.size - pos, 0
  {
    var k := src.token(pos);
    if src.token(k.end).kind == ArrayEnd {
      t := ArrayT([]);
    } else {
      var items := ItemsAreSpelled(f, src, k.end, depth, [], 0, r);
      t := ArrayT(items);
      assert [] + Numbered(items, 0) == Numbered(items, 0);
    }
  }

  lemma {:induction false} ObjectIsSpelled(f: Features, src: Source, pos: nat, depth: nat, r: Reading) returns (t: Tree)
    requires src.Forward() && pos <= src.size && NoComments(src) && !f.allowDroppedNullPlaceholders
    requires depth <= STACK_LIMIT && src.token(pos).kind == ObjectBegin && src.Ahead(pos, src.token(pos))
    requires AcceptFrom(f, src, src.token(pos), depth) == Some(r)
    ensures Spells(src, pos, t, r.pos) && Meaning(t) == r.root && Fits(depth, Nesting(t))
    decreases src.size - pos, 0
  {
    var k := src.token(pos);
    var members := MembersAreSpelled(f, src, k.end, depth, [], [], r);
    t := ObjectT(members);
  }

  lemma {:induction false} ItemsAreSpelled(f: Features, src: Source, pos: nat, depth: nat, es: seq<Entry>, i: nat,
                                           r: Reading) returns (items: seq<Tree>)
    requires src.Forward() && pos <= src.size && NoComments(src) && !f.allowDroppedNullPlaceholders
    requires KeysBelow(es, i) && AcceptElements(f, src, pos, depth, es, i) == Some(r)
    ensures items != [] && SpellsItems(src, pos, items, r.pos)
    ensures r.root == ArrayV(es + Numbered(items, i)) && Fits(depth + 1, ItemsNesting(items))
    decreases src.size - pos, 2
  {
    var first := AcceptValue(f, src, pos, depth + 1).value;
    var q := first.pos;
    var t := ValueIsSpelled(f, src, pos, depth + 1, first);
    PutAtEnd(es, Index(i), first.root);
    KeysBelowNext(es, i, first.root);
    NothingSkipped(f, src, q);
    var es' := es + [Entry(Index(i), Meaning(t))];
    if src.token(q).kind == ArrayEnd {
      items := LastItem(src, pos, es, i, t, q);
    } else {
      var rest := ItemsAreSpelled(f, src, src.token(q).end, depth, es', i + 1, r);
      items := MoreItems(src, pos, es, i, t, q, rest, r.pos);
      assert ItemsNesting(items) == Max(Nesting(t), ItemsNesting(rest));
    }
  }

  lemma LastItem(src: Source, pos: nat, es: seq<Entry>, i: nat, t: Tree, q: nat) returns (items: seq<Tree>)
    requires pos <= q <= src.size && Spells(src, pos, t, q) && src.token(q).kind == ArrayEnd
    ensures items == [t] && SpellsItems(src, pos, items, src.token(q).end)
    ensures es + Numbered(items, i) == es + [Entry(Index(i), Meaning(t))] && ItemsNesting(items) == Nesting(t)
  {
    items := [t];
    assert items[1..] == [];
    assert ItemsNesting(items) == Max(Nesting(t), ItemsNesting(items[1..]));
    assert SpellsItemsVia(src, pos, items, src.token(q).end, q);
  }

  lemma MoreItems(src: Source, pos: nat, es: seq<Entry>, i: nat, t: Tree, q: nat, rest: seq<Tree>, end: nat)
    returns (items: seq<Tree>)
    requires pos <= q <= src.size && Spells(src, pos, t, q) && src.token(q).kind == ArraySeparator
    requires rest != [] && SpellsItems(src, src.token(q).end, rest, end)
    ensures items == [t] + rest && items[1..] == rest && items[0] == t && SpellsItems(src, pos, items, end)
    ensures es + Numbered(items, i) == es + [Entry(Index(i), Meaning(t))] + Numbered(rest, i + 1)
  {
    items := [t] + rest;
    assert items[1..] == rest;
    assert SpellsItemsVia(src, pos, items, end, q);
  }

  lemma {:induction false} MembersAreSpelled(f: Features, src: Source, pos: nat, depth: nat, es: seq<Entry>, name: bytes,
                                             r: Reading) returns (members: seq<Member>)
    requires src.Forward() && pos <= src.size && NoComments(src) && !f.allowDroppedNullPlaceholders
    requires depth <= STACK_LIMIT && AcceptMembers(f, src, pos, depth, es, name) == Some(r)
    ensures Ends(src, pos, name, members, r.pos)
    ensures r.root == ObjectV(Stored(es, members)) && Fits(depth + 1, MembersNesting(members))
    decreases src.size - pos, 1
  {
    NothingSkipped(f, src, pos);
    var k := src.token(pos);
    if k.kind == ObjectEnd && name == [] {
      members := [];
    } else {
      members := MemberIsSpelled(f, src, pos, depth, es, src.text(k).value, r);
    }
  }

  /** The tokens of a member that has been accepted. */
  lemma MemberTokens(f: Features, src: Source, pos: nat, depth: nat, es: seq<Entry>, name: bytes, r: Reading)
    returns (colon: Token, first: Reading)
    requires src.Forward() && pos <= src.size && NoComments(src)
    requires AcceptMember(f, src, pos, depth, es, name) == Some(r)
    ensures colon == src.token(pos) && src.Ahead(pos, colon) && colon.kind == MemberSeparator
    ensures pos < colon.end <= src.size && AcceptValue(f, src, colon.end, depth + 1) == Some(first)
    ensures colon.end <= first.pos <= src.size && src.token(first.pos).kind in {ObjectEnd, ArraySeparator}
    ensures src.Ahead(first.pos, src.token(first.pos))
    ensures AcceptNextMember(f, src, first.pos, depth, Put(es, Name(name), first.root), name) == Some(r)
  {
    colon := src.token(pos);
    assert src.Ahead(pos, colon);
    first := AcceptValue(f, src, colon.end, depth + 1).value;
    NextMemberEnds(f, src, first.pos, depth, Put(es, Name(name), first.root), name, r);
  }

  lemma NextMemberEnds(f: Features, src: Source, pos: nat, depth: nat, es: seq<Entry>, name: bytes, r: Reading)
    requires src.Forward() && pos <= src.size && NoComments(src)
    requires AcceptNextMember(f, src, pos, depth, es, name) == Some(r)
    ensures src.token(pos).kind in {ObjectEnd, ArraySeparator} && src.Ahead(pos, src.token(pos))
  {
    NothingSkipped(f, src, pos);
    assert EndsMember(src.token(pos)) && src.token(pos).kind != Comment;
  }

  lemma {:induction false} MemberIsSpelled(f: Features, src: Source, pos: nat, depth: nat, es: seq<Entry>, name: bytes,
                                           r: Reading) returns (members: seq<Member>)
    requires src.Forward() && pos <= src.size && NoComments(src) && !f.allowDroppedNullPlaceholders
    requires depth <= STACK_LIMIT && src.Ahead(pos, src.token(pos)) && src.token(pos).kind == StringToken
    requires src.text(src.token(pos)) == Some(name)
    requires AcceptMember(f, src, src.token(pos).end, depth, es, name) == Some(r)
    ensures members != [] && SpellsMembers(src, pos, members, r.pos)
    ensures r.root == ObjectV(Stored(es, members)) && Fits(depth + 1, MembersNesting(members))
    decreases src.size - pos, 0
  {
    var colon, first := MemberTokens(f, src, src.token(pos).end, depth, es, name, r);
    var q := first.pos;
    var t := ValueIsSpelled(f, src, colon.end, depth + 1, first);
    var m, es' := Member(name, t), Put(es, Name(name), first.root);
    assert SpellsMember(src, pos, m, q);
    NothingSkipped(f, src, q);
    if src.token(q).kind == ObjectEnd {
      members := LastMember(src, pos, es, m, q, r.pos);
    } else {
      var rest := MembersAreSpelled(f, src, src.token(q).end, depth, es', name, r);
      if rest == [] {
        members := LastMember(src, pos, es, m, q, r.pos);
      } else {
        members := MoreMembers(src, pos, es, m, q, rest, r.pos);
      }
    }
  }

  lemma LastMember(src: Source, pos: nat, es: seq<Entry>, m: Member, q: nat, end: nat) returns (members: seq<Member>)
    requires q <= src.size && SpellsMember(src, pos, m, q) && EndsObject(src, q, m.name, end)
    ensures members == [m] && SpellsMembers(src, pos, members, end)
    ensures Stored(es, members) == Put(es, Name(m.name), Meaning(m.value)) && MembersNesting(members) == Nesting(m.value)
  {
    members := [m];
    assert members[1..] == [];
    assert MembersNesting(members) == Max(Nesting(m.value), MembersNesting(members[1..]));
    assert Stored(es, members) == Stored(Put(es, Name(m.name), MemberMeaning(m)), members[1..]);
    assert SpellsMembersVia(src, pos, members, end, q);
  }

  lemma MoreMembers(src: Source, pos: nat, es: seq<Entry>, m: Member, q: nat, rest: seq<Member>, end: nat)
    returns (members: seq<Member>)
    requires q <= src.size && SpellsMember(src, pos, m, q) && src.token(q).kind == ArraySeparator
    requires rest != [] && SpellsMembers(src, src.token(q).end, rest, end)
    ensures members != [] && SpellsMembers(src, pos, members, end)
    ensures Stored(es, members) == Stored(Put(es, Name(m.name), Meaning(m.value)), rest)
    ensures MembersNesting(members) == Max(Nesting(m.value), MembersNesting(rest))
  {
    members := [m] + rest;
    assert members[1..] == rest;
    assert MembersNesting(members) == Max(MemberNesting(m), MembersNesting(members[1..]));
    assert Stored(es, members) == Stored(Put(es, Name(m.name), MemberMeaning(m)), members[1..]);
    assert SpellsMembersVia(src, pos, members, end, q);
  }

  // ---------- the language ----------

  /** The document begins with a tree that may be read. */
  ghost predicate Begins(f: Features, src: Source, t: Tree, end: nat) {
    Spells(src, 0, t, end) && Nesting(t) <= STACK_LIMIT && (f.strictRoot ==> Container(Meaning(t)))
  }

  /** Without comments and dropped placeholders, a source is accepted exactly when it begins with a tree. */
  lemma SourceIsAccepted(f: Features, src: Source, was: Value)
    requires src.Forward() && NoComments(src) && !f.allowDroppedNullPlaceholders
    ensures var p := Parse(f, src, was);
            && (p.Result? && p.ok <==> exists t: Tree, end: nat :: Begins(f, src, t, end))
            && (forall t: Tree, end: nat | Begins(f, src, t, end) :: p == Result(true, Meaning(t), []))
  {
    ParseAccepts(f, src, was);
    var p := Parse(f, src, was);
    if p.Result? && p.ok {
      var r := AcceptValue(f, src, 0, 1).value;
      var t := ValueIsSpelled(f, src, 0, 1, r);
      assert Begins(f, src, t, r.pos);
    }
    forall t: Tree, end: nat | Begins(f, src, t, end) ensures p == Result(true, Meaning(t), []) {
      TreeIsParsed(f, src, t, was, 0, end);
    }
  }

  /** A document without comments, by its tokens. */
  lemma DocumentIsAccepted(f: Features, toDouble: bytes -> Option<real>, doc: bytes, was: Value)
    requires NoCommentSigns(doc) && !f.allowDroppedNullPlaceholders
    ensures SourceOf(toDouble, doc).Forward()
    ensures var src := SourceOf(toDouble, doc);
            var p := Parse(f, src, was);
            && (p.Result? && p.ok <==> exists t: Tree, end: nat :: Begins(f, src, t, end))
            && (forall t: Tree, end: nat | Begins(f, src, t, end) :: p == Result(true, Meaning(t), []))
  {
    var src := SourceOf(toDouble, doc);
    DocumentIsTokenized(toDouble, doc);
    NoSignsNoComments(src, doc);
    SourceIsAccepted(f, src, was);
  }

  // ---------- dropped placeholders ----------

  /**
   Where a value should be and a comma or a closing bracket stands, null is read and the character left for
   what follows, if dropped placeholders are allowed; and if not, it is the error of the value.
   */
  lemma PlaceholderIsRead(f: Features, src: Source, doc: bytes, pos: nat, depth: nat, v: Value, errors: seq<Error>)
    requires src.Forward() && Lexes(src, doc) && src.size == |doc| && depth <= STACK_LIMIT
    requires pos < |doc| && doc[pos] in {COMMA, RBRACKET, RBRACE}
    ensures ReadValue(f, src, pos, depth, v, errors)
            == if f.allowDroppedNullPlaceholders then Done(true, NullV, pos, errors)
               else Done(false, v, pos + 1, errors + [Error(src.token(pos))])
    ensures src.token(pos).start == pos && src.token(pos).end == pos + 1
  {
    SymbolHere(src, doc, pos, doc[pos]);
    var t := src.token(pos);
    assert src.Ahead(pos, t);
    assert SkipCommentTokens(f, src, pos) == t;
  }
}
