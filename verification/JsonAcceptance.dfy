/**
 The documents that are accepted, and as what: the grammar without error list and
 recovery, where a reading that meets an error has no result.
 */
module JsonAcceptance {
  import opened Wrappers
  import opened Bytes
  import opened JsonValue
  import opened JsonLexer
  import opened JsonGrammar

  /** What has been read, and where reading goes on. */
  datatype Reading = Reading(root: Value, pos: nat)

  function AcceptValue(f: Features, src: Source, pos: nat, depth: nat): (r: Option<Reading>)
    requires src.Forward() && pos <= src.size
    ensures r.Some? ==> pos <= r.value.pos <= src.size
    decreases src.size - pos, 1
  {
    if depth > STACK_LIMIT then None else AcceptFrom(f, src, SkipCommentTokens(f, src, pos), depth)
  }

  function AcceptFrom(f: Features, src: Source, t: Token, depth: nat): (r: Option<Reading>)
    requires src.Forward() && src.Ahead(t.start, t)
    ensures r.Some? ==> t.start <= r.value.pos <= src.size
    decreases src.size - t.start, 0
  {
    match t.kind
    case ObjectBegin => AcceptMembers(f, src, t.end, depth, [], [])
    case ArrayBegin =>
      var next := src.token(t.end);
      assert src.Ahead(t.end, next);
      if next.kind == ArrayEnd then Some(Reading(ArrayV([]), next.end)) else AcceptElements(f, src, t.end, depth, [], 0)
    case NumberToken => if src.number(t).None? then None else Some(Reading(src.number(t).value, t.end))
    case StringToken => if src.text(t).None? then None else Some(Reading(StringV(src.text(t).value), t.end))
    case TrueToken => Some(Reading(BoolV(true), t.end))
    case FalseToken => Some(Reading(BoolV(false), t.end))
    case NullToken => Some(Reading(NullV, t.end))
    case ArraySeparator | ObjectEnd | ArrayEnd =>
      if f.allowDroppedNullPlaceholders then Some(Reading(NullV, t.end - 1)) else None
    case EndOfStream | MemberSeparator | Comment | ErrorToken => None
  }

  function AcceptElements(f: Features, src: Source, pos: nat, depth: nat, es: seq<Entry>, i: nat): (r: Option<Reading>)
    requires src.Forward() && pos <= src.size
    ensures r.Some? ==> pos <= r.value.pos <= src.size && r.value.root.ArrayV?
    decreases src.size - pos, 3
  {
    var r := AcceptValue(f, src, pos, depth + 1);
    if r.None? then None else AcceptNextElement(f, src, r.value.pos, depth, Put(es, Index(i), r.value.root), i)
  }

  /** Behind element i. */
  function AcceptNextElement(f: Features, src: Source, pos: nat, depth: nat, es: seq<Entry>, i: nat):
    (r: Option<Reading>)
    requires src.Forward() && pos <= src.size
    ensures r.Some? ==> pos <= r.value.pos <= src.size && r.value.root.ArrayV?
    decreases src.size - pos, 2
  {
    var t := PastComments(src, pos);
    if t.kind == ArrayEnd then Some(Reading(ArrayV(es), t.end))
    else if t.kind == ArraySeparator then AcceptElements(f, src, t.end, depth, es, i + 1)
    else None
  }

  /** In front of a name; the name read last decides whether the object may end here. */
  function AcceptMembers(f: Features, src: Source, pos: nat, depth: nat, es: seq<Entry>, name: bytes):
    (r: Option<Reading>)
    requires src.Forward() && pos <= src.size
    ensures r.Some? ==> pos <= r.value.pos <= src.size && r.value.root.ObjectV?
    decreases src.size - pos, 2
  {
    var t := PastComments(src, pos);
    if t.kind == ObjectEnd && name == [] then Some(Reading(ObjectV(es), t.end))
    else if t.kind != StringToken || src.text(t).None? then None
    else AcceptMember(f, src, t.end, depth, es, src.text(t).value)
  }

  /** Behind a name. */
  function AcceptMember(f: Features, src: Source, pos: nat, depth: nat, es: seq<Entry>, name: bytes):
    (r: Option<Reading>)
    requires src.Forward() && pos <= src.size
    ensures r.Some? ==> pos <= r.value.pos <= src.size && r.value.root.ObjectV?
    decreases src.size - pos, 5
  {
    var colon := src.token(pos);
    assert src.Ahead(pos, colon);
    if colon.kind != MemberSeparator then None else AcceptMemberValue(f, src, colon.end, depth, es, name)
  }

  /** Behind a colon. */
  function AcceptMemberValue(f: Features, src: Source, pos: nat, depth: nat, es: seq<Entry>, name: bytes):
    (r: Option<Reading>)
    requires src.Forward() && pos <= src.size
    ensures r.Some? ==> pos <= r.value.pos <= src.size && r.value.root.ObjectV?
    decreases src.size - pos, 4
  {
    var r := AcceptValue(f, src, pos, depth + 1);
    if r.None? then None
    else AcceptNextMember(f, src, r.value.pos, depth, Put(es, Name(name), r.value.root), name)
  }

  /** Behind the value of a member; behind a comment, any token is taken for the separator. */
  function AcceptNextMember(f: Features, src: Source, pos: nat, depth: nat, es: seq<Entry>, name: bytes):
    (r: Option<Reading>)
    requires src.Forward() && pos <= src.size
    ensures r.Some? ==> pos <= r.value.pos <= src.size && r.value.root.ObjectV?
    decreases src.size - pos, 3
  {
    var comma := PastComments(src, pos);
    if !EndsMember(src.token(pos)) then None
    else if comma.kind == ObjectEnd then Some(Reading(ObjectV(es), comma.end))
    else AcceptMembers(f, src, comma.end, depth, es, name)
  }

  // ---------- one step ----------

  lemma ElementRead(f: Features, src: Source, pos: nat, depth: nat, es: seq<Entry>, i: nat, r: Reading)
    requires src.Forward() && pos <= src.size && AcceptValue(f, src, pos, depth + 1) == Some(r)
    ensures AcceptElements(f, src, pos, depth, es, i)
            == AcceptNextElement(f, src, r.pos, depth, Put(es, Index(i), r.root), i)
  {
  }

  lemma MemberRead(f: Features, src: Source, pos: nat, depth: nat, es: seq<Entry>, name: bytes, r: Reading)
    requires src.Forward() && pos <= src.size && AcceptValue(f, src, pos, depth + 1) == Some(r)
    ensures AcceptMemberValue(f, src, pos, depth, es, name)
            == AcceptNextMember(f, src, r.pos, depth, Put(es, Name(name), r.root), name)
  {
  }

  lemma NameRead(f: Features, src: Source, pos: nat, depth: nat, es: seq<Entry>, last: bytes, t: Token, name: bytes)
    requires src.Forward() && pos <= src.size && PastComments(src, pos) == t
    requires t.kind == StringToken && src.text(t) == Some(name)
    ensures AcceptMembers(f, src, pos, depth, es, last) == AcceptMember(f, src, t.end, depth, es, name)
  {
  }

  lemma SeparatorRead(f: Features, src: Source, pos: nat, depth: nat, es: seq<Entry>, name: bytes, comma: Token)
    requires src.Forward() && pos <= src.size && PastComments(src, pos) == comma && EndsMember(src.token(pos))
    ensures AcceptNextMember(f, src, pos, depth, es, name)
            == if comma.kind == ObjectEnd then Some(Reading(ObjectV(es), comma.end))
               else AcceptMembers(f, src, comma.end, depth, es, name)
  {
  }

  // ---------- the two readings are one ----------

  predicate Agrees(r: Outcome, a: Option<Reading>) {
    if a.Some? then r == Done(true, a.value.root, a.value.pos, []) else r.Done? ==> !r.ok
  }

  lemma {:induction false} ValueAgrees(f: Features, src: Source, pos: nat, depth: nat, v: Value)
    requires src.Forward() && pos <= src.size
    ensures Agrees(ReadValue(f, src, pos, depth, v, []), AcceptValue(f, src, pos, depth))
    decreases src.size - pos, 1
  {
    if depth <= STACK_LIMIT {
      var t := SkipCommentTokens(f, src, pos);
      FromAgrees(f, src, t, depth, v);
    }
  }

  lemma {:induction false} FromAgrees(f: Features, src: Source, t: Token, depth: nat, v: Value)
    requires src.Forward() && src.Ahead(t.start, t)
    ensures Agrees(ReadFrom(f, src, t, depth, v, []), AcceptFrom(f, src, t, depth))
    decreases src.size - t.start, 0
  {
    if t.kind == ObjectBegin {
      MembersAgree(f, src, t.end, depth, [], []);
    } else if t.kind == ArrayBegin {
      ElementsAgree(f, src, t.end, depth, [], 0);
    }
  }

  lemma {:induction false} ElementsAgree(f: Features, src: Source, pos: nat, depth: nat, es: seq<Entry>, i: nat)
    requires src.Forward() && pos <= src.size
    ensures Agrees(ReadElements(f, src, pos, depth, es, i, []), AcceptElements(f, src, pos, depth, es, i))
    decreases src.size - pos, 2
  {
    ValueAgrees(f, src, pos, depth + 1, Get(es, Index(i)));
    var r := AcceptValue(f, src, pos, depth + 1);
    if r.Some? {
      var es' := Put(es, Index(i), r.value.root);
      var t := PastComments(src, r.value.pos);
      assert AcceptElements(f, src, pos, depth, es, i) == AcceptNextElement(f, src, r.value.pos, depth, es', i);
      if t.kind == ArraySeparator { ElementsAgree(f, src, t.end, depth, es', i + 1); }
    }
  }

  lemma {:induction false} MembersAgree(f: Features, src: Source, pos: nat, depth: nat, es: seq<Entry>, name: bytes)
    requires src.Forward() && pos <= src.size
    ensures Agrees(ReadMembers(f, src, pos, depth, es, name, []), AcceptMembers(f, src, pos, depth, es, name))
    decreases src.size - pos, 2
  {
    var t := PastComments(src, pos);
    if t.kind == StringToken && src.text(t).Some? {
      MemberAgrees(f, src, t.end, depth, es, src.text(t).value);
    }
  }

  lemma {:induction false} MemberAgrees(f: Features, src: Source, pos: nat, depth: nat, es: seq<Entry>, name: bytes)
    requires src.Forward() && pos <= src.size
    ensures Agrees(ReadMember(f, src, pos, depth, es, name, []), AcceptMember(f, src, pos, depth, es, name))
    decreases src.size - pos, 3
  {
    var colon := src.token(pos);
    assert src.Ahead(pos, colon);
    if colon.kind == MemberSeparator {
      ValueAgrees(f, src, colon.end, depth + 1, Get(es, Name(name)));
      var a := AcceptValue(f, src, colon.end, depth + 1);
      if a.Some? {
        var r := a.value;
        var es' := Put(es, Name(name), r.root);
        MemberRead(f, src, colon.end, depth, es, name, r);
        var comma := PastComments(src, r.pos);
        if EndsMember(src.token(r.pos)) && comma.kind != ObjectEnd {
          MembersAgree(f, src, comma.end, depth, es', name);
        }
        NextMemberAgrees(f, src, pos, depth, es, name, r, comma);
      } else {
        assert AcceptMemberValue(f, src, colon.end, depth, es, name) == None;
      }
    }
  }

  lemma NextMemberAgrees(f: Features, src: Source, pos: nat, depth: nat, es: seq<Entry>, name: bytes, r: Reading,
                         comma: Token)
    requires src.Forward() && pos <= src.size && src.token(pos).kind == MemberSeparator
    requires src.token(pos).end <= src.size && r.pos <= src.size && comma == PastComments(src, r.pos)
    requires ReadValue(f, src, src.token(pos).end, depth + 1, Get(es, Name(name)), []) == Done(true, r.root, r.pos, [])
    requires var es' := Put(es, Name(name), r.root);
             EndsMember(src.token(r.pos)) && comma.kind != ObjectEnd ==>
               Agrees(ReadMembers(f, src, comma.end, depth, es', name, []),
                      AcceptMembers(f, src, comma.end, depth, es', name))
    ensures Agrees(ReadMember(f, src, pos, depth, es, name, []),
                   AcceptNextMember(f, src, r.pos, depth, Put(es, Name(name), r.root), name))
  {
  }

  /** A document parses exactly when it is accepted and, with a strict root, is a container; then as what it is accepted. */
  lemma ParseAccepts(f: Features, src: Source, was: Value)
    requires src.Forward()
    ensures var a := AcceptValue(f, src, 0, 1);
            var p := Parse(f, src, was);
            && (p.Result? && p.ok <==> a.Some? && (f.strictRoot ==> Container(a.value.root)))
            && (p.Result? && p.ok ==> p == Result(true, a.value.root, []))
  {
    ValueAgrees(f, src, 0, 1, was);
    ValueAccounts(f, src, 0, 1, was, []);
  }
}
