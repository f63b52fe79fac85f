/**
 Where in an accepted document a comment can stand, and what putting one there does:
 the document means the same exactly at the places where comments are transparent.
 */
module JsonPlaces {
  import opened Wrappers
  import opened Bytes
  import opened JsonValue
  import opened JsonLexer
  import opened JsonGrammar
  import opened JsonComments
  import opened JsonAcceptance
  import opened JsonSplicing

  // ---------- places ----------

  /** How a position relates to the token that is read next, or to the first one that is no comment. */
  datatype Meeting = Met | Inside | Passed

  datatype Place =
    | BeforeValue
    | BeforeName                             // or in front of the brace that comes instead of a name
    | BeforeColon
    | BeforeSeparator                        // behind a value: in front of a comma or a closing sign
    | EmptyArray(depth: nat, kept: bool)     // at this depth; kept unless a later member of the same name replaces it
    | InToken
    | Behind                                 // the value ends before

  function MeetToken(t: Token, p: nat): Meeting {
    if p <= t.start then Met else if p < t.end then Inside else Passed
  }

  function MeetPast(src: Source, pos: nat, p: nat): Meeting
    requires src.Forward() && pos <= src.size
    decreases src.size - pos
  {
    var t := src.token(pos);
    assert src.Ahead(pos, t);
    if t.kind == Comment && MeetToken(t, p) == Passed then MeetPast(src, t.end, p) else MeetToken(t, p)
  }

  function MeetFirst(f: Features, src: Source, pos: nat, p: nat): Meeting
    requires src.Forward() && pos <= src.size
  {
    if f.allowComments then MeetPast(src, pos, p) else MeetToken(src.token(pos), p)
  }

  /** Behind the value of a member: a later member of the object has the name. */
  predicate Overwritten(f: Features, src: Source, pos: nat, depth: nat, name: bytes)
    requires src.Forward() && pos <= src.size
    decreases src.size - pos, 1
  {
    var comma := PastComments(src, pos);
    comma.kind != ObjectEnd && NamedFrom(f, src, comma.end, depth, name)
  }

  /** In front of a name: that member or a later one has the name. */
  predicate NamedFrom(f: Features, src: Source, pos: nat, depth: nat, name: bytes)
    requires src.Forward() && pos <= src.size
    decreases src.size - pos, 0
  {
    var t := PastComments(src, pos);
    && t.kind == StringToken && src.text(t).Some?
    && (src.text(t).value == name || NamedBehind(f, src, t.end, depth, name))
  }

  /** Behind the name of a member: a later one has the name. */
  predicate NamedBehind(f: Features, src: Source, pos: nat, depth: nat, name: bytes)
    requires src.Forward() && pos <= src.size
    decreases src.size - pos, 2
  {
    var colon := src.token(pos);
    assert src.Ahead(pos, colon);
    var r := AcceptValue(f, src, colon.end, depth + 1);
    r.Some? && Overwritten(f, src, r.value.pos, depth, name)
  }

  /** Where position p lies, for the value read from pos. */
  function ValuePlace(f: Features, src: Source, pos: nat, depth: nat, p: nat): Place
    requires src.Forward() && pos <= src.size
    decreases src.size - pos, 1
  {
    match MeetFirst(f, src, pos, p)
    case Met => BeforeValue
    case Inside => InToken
    case Passed => FromPlace(f, src, SkipCommentTokens(f, src, pos), depth, p)
  }

  function FromPlace(f: Features, src: Source, t: Token, depth: nat, p: nat): Place
    requires src.Forward() && src.Ahead(t.start, t)
    decreases src.size - t.start, 0
  {
    if t.kind == ObjectBegin then MembersPlace(f, src, t.end, depth, p)
    else if t.kind != ArrayBegin then Behind
    else if src.token(t.end).kind != ArrayEnd then ElementsPlace(f, src, t.end, depth, p)
    else
      match MeetToken(src.token(t.end), p)
      case Met => EmptyArray(depth, true)
      case Inside => InToken
      case Passed => Behind
  }

  function ElementsPlace(f: Features, src: Source, pos: nat, depth: nat, p: nat): Place
    requires src.Forward() && pos <= src.size
    decreases src.size - pos, 3
  {
    var here := ValuePlace(f, src, pos, depth + 1, p);
    var r := AcceptValue(f, src, pos, depth + 1);
    if here != Behind || r.None? then here else NextElementPlace(f, src, r.value.pos, depth, p)
  }

  function NextElementPlace(f: Features, src: Source, pos: nat, depth: nat, p: nat): Place
    requires src.Forward() && pos <= src.size
    decreases src.size - pos, 2
  {
    match MeetPast(src, pos, p)
    case Met => BeforeSeparator
    case Inside => InToken
    case Passed =>
      var t := PastComments(src, pos);
      if t.kind == ArraySeparator then ElementsPlace(f, src, t.end, depth, p) else Behind
  }

  function MembersPlace(f: Features, src: Source, pos: nat, depth: nat, p: nat): Place
    requires src.Forward() && pos <= src.size
    decreases src.size - pos, 2
  {
    match MeetPast(src, pos, p)
    case Met => BeforeName
    case Inside => InToken
    case Passed =>
      var t := PastComments(src, pos);
      if t.kind == StringToken && src.text(t).Some? then MemberPlace(f, src, t.end, depth, src.text(t).value, p)
      else Behind
  }

  function MemberPlace(f: Features, src: Source, pos: nat, depth: nat, name: bytes, p: nat): Place
    requires src.Forward() && pos <= src.size
    decreases src.size - pos, 5
  {
    var colon := src.token(pos);
    assert src.Ahead(pos, colon);
    match MeetToken(colon, p)
    case Met => BeforeColon
    case Inside => InToken
    case Passed => MemberValuePlace(f, src, colon.end, depth, name, p)
  }

  function MemberValuePlace(f: Features, src: Source, pos: nat, depth: nat, name: bytes, p: nat): Place
    requires src.Forward() && pos <= src.size
    decreases src.size - pos, 4
  {
    var here := ValuePlace(f, src, pos, depth + 1, p);
    var r := AcceptValue(f, src, pos, depth + 1);
    if r.None? then here
    else if here == Behind then NextMemberPlace(f, src, r.value.pos, depth, p)
    else InMember(here, Overwritten(f, src, r.value.pos, depth, name))
  }

  /** A place in the value of a member. */
  function InMember(place: Place, overwritten: bool): Place {
    if place.EmptyArray? then EmptyArray(place.depth, place.kept && !overwritten) else place
  }

  function NextMemberPlace(f: Features, src: Source, pos: nat, depth: nat, p: nat): Place
    requires src.Forward() && pos <= src.size
    decreases src.size - pos, 3
  {
    match MeetPast(src, pos, p)
    case Met => BeforeSeparator
    case Inside => InToken
    case Passed =>
      var comma := PastComments(src, pos);
      if comma.kind == ObjectEnd then Behind
      else MembersPlace(f, src, comma.end, depth, p)
  }

  /** The document with a comment at this place is still accepted. */
  predicate Survives(f: Features, place: Place) {
    match place
    case BeforeName | BeforeSeparator | Behind => true
    case BeforeValue => f.allowComments
    case EmptyArray(depth, _) => f.allowComments && f.allowDroppedNullPlaceholders && depth < STACK_LIMIT
    case BeforeColon | InToken => false
  }

  /** And it means the same: an empty array becomes an array of one null. */
  predicate Transparent(f: Features, place: Place) {
    Survives(f, place) && !(place.EmptyArray? && place.kept)
  }

  /** What the comment at a place does to a reading. */
  predicate Effect(f: Features, p: nat, n: nat, place: Place, g: Reading, g': Option<Reading>) {
    match place
    case InToken => true
    case Behind => g.pos <= p && g' == Some(g)
    case _ =>
      && p <= g.pos
      && if Survives(f, place) then
           && g'.Some? && g'.value.pos == g.pos + n
           && (g'.value.root == g.root <==> Transparent(f, place))
           && (Container(g'.value.root) <==> Container(g.root))
         else g' == None
  }

  // ---------- behind the comment everything is read as before ----------

  function ShiftReading(r: Option<Reading>, n: nat): Option<Reading> {
    if r.None? then None else Some(Reading(r.value.root, r.value.pos + n))
  }

  lemma {:induction false} PastShift(src: Source, src': Source, p: nat, n: nat, pos: nat)
    requires Spliced(src, src', p, n) && p <= pos <= src.size
    ensures PastComments(src', pos + n) == Shift(PastComments(src, pos), n)
    decreases src.size - pos
  {
    assert BehindAt(src, src', p, n, pos);
    var t := src.token(pos);
    assert src.Ahead(pos, t);
    if t.kind == Comment { PastShift(src, src', p, n, t.end); }
  }

  /** The token read behind comments is read again from where it begins. */
  lemma {:induction false} PastStands(src: Source, src': Source, p: nat, n: nat, pos: nat)
    requires Spliced(src, src', p, n) && pos <= src.size
    ensures var u := PastComments(src, pos); src.token(u.start) == u
    decreases src.size - pos
  {
    assert PlainAt(src, pos);
    var t := src.token(pos);
    assert src.Ahead(pos, t);
    if t.kind == Comment { PastStands(src, src', p, n, t.end); }
  }

  /** What the token read behind comments denotes as a name, behind the comment and in front of it. */
  lemma NameBehind(src: Source, src': Source, p: nat, n: nat, pos: nat)
    requires Spliced(src, src', p, n) && pos <= src.size && p <= PastComments(src, pos).start
    ensures src'.text(Shift(PastComments(src, pos), n)) == src.text(PastComments(src, pos))
  {
    PastStands(src, src', p, n, pos);
    assert MeansTheSame(src, src', p, n, PastComments(src, pos));
  }

  lemma NameBefore(src: Source, src': Source, p: nat, n: nat, pos: nat)
    requires Spliced(src, src', p, n) && pos <= src.size
    requires var t := PastComments(src, pos); t.start < t.end <= p && Finished(t, src.size)
    ensures src'.text(PastComments(src, pos)) == src.text(PastComments(src, pos))
  {
    PastStands(src, src', p, n, pos);
    assert MeansTheSame(src, src', p, n, PastComments(src, pos));
  }

  lemma {:induction false} ValueShift(f: Features, src: Source, src': Source, p: nat, n: nat, pos: nat, depth: nat)
    requires Spliced(src, src', p, n) && p <= pos <= src.size
    ensures AcceptValue(f, src', pos + n, depth) == ShiftReading(AcceptValue(f, src, pos, depth), n)
    decreases src.size - pos, 1
  {
    if depth <= STACK_LIMIT {
      PastShift(src, src', p, n, pos);
      PastStands(src, src', p, n, pos);
      assert BehindAt(src, src', p, n, pos) && PlainAt(src, pos);
      FromShift(f, src, src', p, n, SkipCommentTokens(f, src, pos), depth);
    }
  }

  lemma {:induction false} FromShift(f: Features, src: Source, src': Source, p: nat, n: nat, t: Token, depth: nat)
    requires Spliced(src, src', p, n) && p <= t.start && src.Ahead(t.start, t) && src.token(t.start) == t
    ensures src'.Ahead(t.start + n, Shift(t, n))
    ensures AcceptFrom(f, src', Shift(t, n), depth) == ShiftReading(AcceptFrom(f, src, t, depth), n)
    decreases src.size - t.start, 0
  {
    if t.kind == ObjectBegin {
      MembersShift(f, src, src', p, n, t.end, depth, [], []);
    } else if t.kind == ArrayBegin {
      assert BehindAt(src, src', p, n, t.end);
      ElementsShift(f, src, src', p, n, t.end, depth, [], 0);
    } else {
      ScalarShift(f, src, src', p, n, t, depth);
    }
  }

  lemma ScalarShift(f: Features, src: Source, src': Source, p: nat, n: nat, t: Token, depth: nat)
    requires Spliced(src, src', p, n) && p <= t.start && src.Ahead(t.start, t) && src.token(t.start) == t
    requires t.kind != ObjectBegin && t.kind != ArrayBegin
    ensures src'.Ahead(t.start + n, Shift(t, n))
    ensures AcceptFrom(f, src', Shift(t, n), depth) == ShiftReading(AcceptFrom(f, src, t, depth), n)
  {
    assert MeansTheSame(src, src', p, n, t);
  }

  lemma {:induction false} ElementsShift(f: Features, src: Source, src': Source, p: nat, n: nat, pos: nat, depth: nat,
                                         es: seq<Entry>, i: nat)
    requires Spliced(src, src', p, n) && p <= pos <= src.size
    ensures AcceptElements(f, src', pos + n, depth, es, i) == ShiftReading(AcceptElements(f, src, pos, depth, es, i), n)
    decreases src.size - pos, 3
  {
    ValueShift(f, src, src', p, n, pos, depth + 1);
    var a := AcceptValue(f, src, pos, depth + 1);
    if a.Some? {
      var r := a.value;
      ElementRead(f, src, pos, depth, es, i, r);
      ElementRead(f, src', pos + n, depth, es, i, Reading(r.root, r.pos + n));
      NextElementShift(f, src, src', p, n, r.pos, depth, Put(es, Index(i), r.root), i);
    }
  }

  lemma {:induction false} NextElementShift(f: Features, src: Source, src': Source, p: nat, n: nat, pos: nat,
                                            depth: nat, es: seq<Entry>, i: nat)
    requires Spliced(src, src', p, n) && p <= pos <= src.size
    ensures AcceptNextElement(f, src', pos + n, depth, es, i)
            == ShiftReading(AcceptNextElement(f, src, pos, depth, es, i), n)
    decreases src.size - pos, 2
  {
    PastShift(src, src', p, n, pos);
    var t := PastComments(src, pos);
    if t.kind == ArraySeparator { ElementsShift(f, src, src', p, n, t.end, depth, es, i + 1); }
  }

  lemma {:induction false} MembersShift(f: Features, src: Source, src': Source, p: nat, n: nat, pos: nat, depth: nat,
                                        es: seq<Entry>, name: bytes)
    requires Spliced(src, src', p, n) && p <= pos <= src.size
    ensures AcceptMembers(f, src', pos + n, depth, es, name)
            == ShiftReading(AcceptMembers(f, src, pos, depth, es, name), n)
    decreases src.size - pos, 2
  {
    PastShift(src, src', p, n, pos);
    NameBehind(src, src', p, n, pos);
    var t := PastComments(src, pos);
    if t.kind == StringToken && src.text(t).Some? {
      var s := src.text(t).value;
      NameRead(f, src, pos, depth, es, name, t, s);
      NameRead(f, src', pos + n, depth, es, name, Shift(t, n), s);
      MemberShift(f, src, src', p, n, t.end, depth, es, s);
    }
  }

  lemma {:induction false} MemberShift(f: Features, src: Source, src': Source, p: nat, n: nat, pos: nat, depth: nat,
                                       es: seq<Entry>, name: bytes)
    requires Spliced(src, src', p, n) && p <= pos <= src.size
    ensures AcceptMember(f, src', pos + n, depth, es, name)
            == ShiftReading(AcceptMember(f, src, pos, depth, es, name), n)
    decreases src.size - pos, 5
  {
    assert BehindAt(src, src', p, n, pos);
    var colon := src.token(pos);
    assert src.Ahead(pos, colon);
    if colon.kind == MemberSeparator { MemberValueShift(f, src, src', p, n, colon.end, depth, es, name); }
  }

  lemma {:induction false} MemberValueShift(f: Features, src: Source, src': Source, p: nat, n: nat, pos: nat,
                                            depth: nat, es: seq<Entry>, name: bytes)
    requires Spliced(src, src', p, n) && p <= pos <= src.size
    ensures AcceptMemberValue(f, src', pos + n, depth, es, name)
            == ShiftReading(AcceptMemberValue(f, src, pos, depth, es, name), n)
    decreases src.size - pos, 4
  {
    ValueShift(f, src, src', p, n, pos, depth + 1);
    var a := AcceptValue(f, src, pos, depth + 1);
    if a.Some? {
      var r := a.value;
      MemberRead(f, src, pos, depth, es, name, r);
      MemberRead(f, src', pos + n, depth, es, name, Reading(r.root, r.pos + n));
      NextMemberShift(f, src, src', p, n, r.pos, depth, Put(es, Name(name), r.root), name);
    }
  }

  lemma {:induction false} NextMemberShift(f: Features, src: Source, src': Source, p: nat, n: nat, pos: nat,
                                           depth: nat, es: seq<Entry>, name: bytes)
    requires Spliced(src, src', p, n) && p <= pos <= src.size
    ensures AcceptNextMember(f, src', pos + n, depth, es, name)
            == ShiftReading(AcceptNextMember(f, src, pos, depth, es, name), n)
    decreases src.size - pos, 3
  {
    assert BehindAt(src, src', p, n, pos);
    PastShift(src, src', p, n, pos);
    var comma := PastComments(src, pos);
    if EndsMember(src.token(pos)) {
      SeparatorRead(f, src, pos, depth, es, name, comma);
      SeparatorRead(f, src', pos + n, depth, es, name, Shift(comma, n));
    }
    if comma.kind != ObjectEnd { MembersShift(f, src, src', p, n, comma.end, depth, es, name); }
  }

  // ---------- across the comment ----------

  /** The comment stands in front of the token, or of one of the comments in front of it. */
  lemma {:induction false} PastMet(src: Source, src': Source, p: nat, n: nat, pos: nat)
    requires Spliced(src, src', p, n) && pos <= p && MeetPast(src, pos, p) == Met
    requires var u := PastComments(src, pos); u.start < u.end
    ensures p <= PastComments(src, pos).start && PastComments(src', pos) == Shift(PastComments(src, pos), n)
    decreases src.size - pos
  {
    assert BeforeAt(src, src', p, n, pos);
    var t := src.token(pos);
    assert src.Ahead(pos, t);
    if p <= t.start {
      PastShift(src, src', p, n, p);
      assert PastComments(src, pos) == PastComments(src, p);
    } else {
      assert t.end <= PastComments(src, t.end).start;
      PastMet(src, src', p, n, t.end);
    }
  }

  /** The comment stands further on. */
  lemma {:induction false} PastPassed(src: Source, src': Source, p: nat, n: nat, pos: nat)
    requires Spliced(src, src', p, n) && pos <= p && MeetPast(src, pos, p) == Passed
    requires var u := PastComments(src, pos); u.start < u.end && Finished(u, src.size)
    ensures PastComments(src, pos).end <= p && PastComments(src', pos) == PastComments(src, pos)
    decreases src.size - pos
  {
    assert BeforeAt(src, src', p, n, pos);
    var t := src.token(pos);
    assert src.Ahead(pos, t);
    if t.kind == Comment {
      assert t.end <= PastComments(src, t.end).start;
      PastPassed(src, src', p, n, t.end);
    }
  }

  /** The first token of an accepted value. */
  lemma FirstToken(f: Features, src: Source, pos: nat, depth: nat)
    requires src.Forward() && pos <= src.size && AcceptValue(f, src, pos, depth).Some?
    ensures var u := SkipCommentTokens(f, src, pos);
            && u.start < u.end && u.kind != Comment && u.kind != ErrorToken
            && AcceptValue(f, src, pos, depth) == AcceptFrom(f, src, u, depth)
  {
    assert src.Ahead(pos, SkipCommentTokens(f, src, pos));
  }

  lemma {:induction false} EmptyAtTheEnd(src: Source, src': Source, p: nat, n: nat, pos: nat)
    requires Spliced(src, src', p, n) && pos <= src.size
    ensures var u := PastComments(src, pos); u.start == u.end ==> u.end == src.size
    decreases src.size - pos
  {
    assert PlainAt(src, pos);
    var t := src.token(pos);
    assert src.Ahead(pos, t);
    if t.kind == Comment { EmptyAtTheEnd(src, src', p, n, t.end); }
  }

  /** At the end of the document no member is left. */
  lemma NothingAtTheEnd(f: Features, src: Source, depth: nat, es: seq<Entry>, name: bytes)
    requires src.Forward()
    ensures AcceptMembers(f, src, src.size, depth, es, name).None?
  {
    assert src.Ahead(src.size, src.token(src.size));
  }

  // ---------- two values under one key ----------

  lemma {:induction false} PutFound(es: seq<Entry>, k: Key, v: Value)
    ensures Find(Put(es, k, v), k) == Some(v)
  {
    if es != [] && !KeyLess(k, es[0].key) && es[0].key != k { PutFound(es[1..], k, v); }
  }

  lemma {:induction false} PutTwice(es: seq<Entry>, k: Key, v: Value, w: Value)
    ensures Put(Put(es, k, v), k, w) == Put(es, k, w)
  {
    KeyTrichotomy(k, k);
    if es != [] && !KeyLess(k, es[0].key) && es[0].key != k { PutTwice(es[1..], k, v, w); }
  }

  lemma {:induction false} PutCommutes(es: seq<Entry>, k: Key, v: Value, l: Key, w: Value)
    requires k != l
    ensures Put(Put(es, k, v), l, w) == Put(Put(es, l, w), k, v)
  {
    KeyTrichotomy(k, l);
    if es != [] {
      var e := es[0];
      KeyTrichotomy(k, e.key);
      KeyTrichotomy(l, e.key);
      if KeyLess(e.key, k) && KeyLess(e.key, l) {
        PutCommutes(es[1..], k, v, l, w);
      } else {
        PutAround(es, k, v, l, w);
      }
    }
  }

  /** One of the keys is not behind the first entry. */
  lemma PutAround(es: seq<Entry>, k: Key, v: Value, l: Key, w: Value)
    requires k != l && es != [] && !(KeyLess(es[0].key, k) && KeyLess(es[0].key, l))
    ensures Put(Put(es, k, v), l, w) == Put(Put(es, l, w), k, v)
  {
    var e := es[0];
    KeyTrichotomy(k, l);
    KeyTrichotomy(k, e.key);
    KeyTrichotomy(l, e.key);
    if KeyLess(k, e.key) && KeyLess(e.key, l) { KeyTransitive(k, e.key, l); }
    if KeyLess(l, e.key) && KeyLess(e.key, k) { KeyTransitive(l, e.key, k); }
  }

  /** Two readings that end alike, of the same value or not. */
  predicate Parallel(g: Option<Reading>, h: Option<Reading>, same: bool) {
    && (g.Some? <==> h.Some?)
    && (g.Some? ==> g.value.pos == h.value.pos && (g.value.root == h.value.root <==> same))
  }

  lemma PutDiffers(es: seq<Entry>, k: Key, v: Value, w: Value)
    ensures Put(es, k, v) == Put(es, k, w) <==> v == w
  {
    PutFound(es, k, v);
    PutFound(es, k, w);
  }

  lemma {:induction false} ElementsDiverge(f: Features, src: Source, pos: nat, depth: nat, es: seq<Entry>, j: nat,
                                           v: Value, w: Value, i: nat)
    requires src.Forward() && pos <= src.size && j < i
    ensures Parallel(AcceptElements(f, src, pos, depth, Put(es, Index(j), v), i),
                     AcceptElements(f, src, pos, depth, Put(es, Index(j), w), i), v == w)
    decreases src.size - pos, 1
  {
    var r := AcceptValue(f, src, pos, depth + 1);
    if r.Some? {
      var x := r.value.root;
      PutCommutes(es, Index(j), v, Index(i), x);
      PutCommutes(es, Index(j), w, Index(i), x);
      NextElementDiverges(f, src, r.value.pos, depth, Put(es, Index(i), x), j, v, w, i);
    }
  }

  lemma {:induction false} NextElementDiverges(f: Features, src: Source, pos: nat, depth: nat, es: seq<Entry>, j: nat,
                                               v: Value, w: Value, i: nat)
    requires src.Forward() && pos <= src.size && j <= i
    ensures Parallel(AcceptNextElement(f, src, pos, depth, Put(es, Index(j), v), i),
                     AcceptNextElement(f, src, pos, depth, Put(es, Index(j), w), i), v == w)
    decreases src.size - pos, 0
  {
    var t := PastComments(src, pos);
    if t.kind == ArraySeparator {
      ElementsDiverge(f, src, t.end, depth, es, j, v, w, i + 1);
    } else {
      PutDiffers(es, Index(j), v, w);
    }
  }

  lemma {:induction false} MembersDiverge(f: Features, src: Source, pos: nat, depth: nat, es: seq<Entry>, k: bytes,
                                          v: Value, w: Value, name: bytes)
    requires src.Forward() && pos <= src.size
    ensures Parallel(AcceptMembers(f, src, pos, depth, Put(es, Name(k), v), name),
                     AcceptMembers(f, src, pos, depth, Put(es, Name(k), w), name),
                     v == w || NamedFrom(f, src, pos, depth, k))
    decreases src.size - pos, 0
  {
    var t := PastComments(src, pos);
    if t.kind == StringToken && src.text(t).Some? {
      MemberDiverges(f, src, t.end, depth, es, k, v, w, src.text(t).value);
    } else {
      PutDiffers(es, Name(k), v, w);
    }
  }

  lemma {:induction false} MemberDiverges(f: Features, src: Source, pos: nat, depth: nat, es: seq<Entry>, k: bytes,
                                          v: Value, w: Value, name: bytes)
    requires src.Forward() && pos <= src.size
    ensures Parallel(AcceptMember(f, src, pos, depth, Put(es, Name(k), v), name),
                     AcceptMember(f, src, pos, depth, Put(es, Name(k), w), name),
                     v == w || name == k || NamedBehind(f, src, pos, depth, k))
    decreases src.size - pos, 3
  {
    var colon := src.token(pos);
    assert src.Ahead(pos, colon);
    if colon.kind == MemberSeparator {
      MemberValueDiverges(f, src, colon.end, depth, es, k, v, w, name);
    }
  }

  lemma {:induction false} MemberValueDiverges(f: Features, src: Source, pos: nat, depth: nat, es: seq<Entry>,
                                               k: bytes, v: Value, w: Value, name: bytes)
    requires src.Forward() && pos <= src.size
    ensures var r := AcceptValue(f, src, pos, depth + 1);
            Parallel(AcceptMemberValue(f, src, pos, depth, Put(es, Name(k), v), name),
                     AcceptMemberValue(f, src, pos, depth, Put(es, Name(k), w), name),
                     v == w || name == k || (r.Some? && Overwritten(f, src, r.value.pos, depth, k)))
    decreases src.size - pos, 2
  {
    var a := AcceptValue(f, src, pos, depth + 1);
    if a.Some? {
      var r := a.value;
      MemberRead(f, src, pos, depth, Put(es, Name(k), v), name, r);
      MemberRead(f, src, pos, depth, Put(es, Name(k), w), name, r);
      if name == k {
        PutTwice(es, Name(k), v, r.root);
        PutTwice(es, Name(k), w, r.root);
      } else {
        PutCommutes(es, Name(k), v, Name(name), r.root);
        PutCommutes(es, Name(k), w, Name(name), r.root);
        NextMemberDiverges(f, src, r.pos, depth, Put(es, Name(name), r.root), k, v, w, name);
      }
    }
  }

  lemma {:induction false} NextMemberDiverges(f: Features, src: Source, pos: nat, depth: nat, es: seq<Entry>, k: bytes,
                                              v: Value, w: Value, name: bytes)
    requires src.Forward() && pos <= src.size
    ensures Parallel(AcceptNextMember(f, src, pos, depth, Put(es, Name(k), v), name),
                     AcceptNextMember(f, src, pos, depth, Put(es, Name(k), w), name),
                     v == w || Overwritten(f, src, pos, depth, k))
    decreases src.size - pos, 1
  {
    var comma := PastComments(src, pos);
    if comma.kind == ObjectEnd {
      PutDiffers(es, Name(k), v, w);
    } else {
      MembersDiverge(f, src, comma.end, depth, es, k, v, w, name);
    }
  }

  // ---------- what the comment does ----------

  lemma FirstMet(f: Features, src: Source, src': Source, p: nat, n: nat, pos: nat, depth: nat)
    requires Spliced(src, src', p, n) && pos <= p && AcceptValue(f, src, pos, depth).Some?
    requires MeetFirst(f, src, pos, p) == Met
    ensures AcceptValue(f, src', pos, depth)
            == if f.allowComments then ShiftReading(AcceptValue(f, src, pos, depth), n) else None
    ensures p <= AcceptValue(f, src, pos, depth).value.pos
  {
    FirstToken(f, src, pos, depth);
    if f.allowComments {
      PastMet(src, src', p, n, pos);
      PastStands(src, src', p, n, pos);
      FromShift(f, src, src', p, n, PastComments(src, pos), depth);
    } else {
      assert BeforeAt(src, src', p, n, pos);
    }
  }

  lemma FirstPassed(f: Features, src: Source, src': Source, p: nat, n: nat, pos: nat, depth: nat)
    requires Spliced(src, src', p, n) && pos <= p && AcceptValue(f, src, pos, depth).Some?
    requires MeetFirst(f, src, pos, p) == Passed
    ensures var t := SkipCommentTokens(f, src, pos);
            && t.end <= p && SkipCommentTokens(f, src', pos) == t && src'.Ahead(t.start, t)
            && src.token(t.start) == t
            && AcceptValue(f, src, pos, depth) == AcceptFrom(f, src, t, depth)
            && AcceptValue(f, src', pos, depth) == AcceptFrom(f, src', t, depth)
  {
    FirstToken(f, src, pos, depth);
    if f.allowComments {
      PastPassed(src, src', p, n, pos);
      PastStands(src, src', p, n, pos);
    } else {
      assert BeforeAt(src, src', p, n, pos) && PlainAt(src, pos);
    }
  }

  lemma {:induction false} ValueEffect(f: Features, src: Source, src': Source, p: nat, n: nat, pos: nat, depth: nat)
    requires Spliced(src, src', p, n) && pos <= p && AcceptValue(f, src, pos, depth).Some?
    ensures Effect(f, p, n, ValuePlace(f, src, pos, depth, p), AcceptValue(f, src, pos, depth).value,
                   AcceptValue(f, src', pos, depth))
    decreases src.size - pos, 1
  {
    match MeetFirst(f, src, pos, p)
    case Met => FirstMet(f, src, src', p, n, pos, depth);
    case Inside =>
    case Passed =>
      FirstPassed(f, src, src', p, n, pos, depth);
      FromEffect(f, src, src', p, n, SkipCommentTokens(f, src, pos), depth);
  }

  lemma {:induction false} FromEffect(f: Features, src: Source, src': Source, p: nat, n: nat, t: Token, depth: nat)
    requires Spliced(src, src', p, n) && t.end <= p && src.Ahead(t.start, t) && src'.Ahead(t.start, t)
    requires src.token(t.start) == t && depth <= STACK_LIMIT && AcceptFrom(f, src, t, depth).Some?
    ensures Effect(f, p, n, FromPlace(f, src, t, depth, p), AcceptFrom(f, src, t, depth).value,
                   AcceptFrom(f, src', t, depth))
    decreases src.size - t.start, 0
  {
    if t.kind == ObjectBegin {
      MembersEffect(f, src, src', p, n, t.end, depth, [], []);
    } else if t.kind != ArrayBegin {
      ScalarEffect(f, src, src', p, n, t, depth);
    } else if src.token(t.end).kind == ArrayEnd {
      EmptyArrayEffect(f, src, src', p, n, t, depth);
    } else {
      ElementsEffect(f, src, src', p, n, t.end, depth, [], 0);
      if ElementsPlace(f, src, t.end, depth, p) != InToken { NotEmpty(f, src, src', p, n, t.end, depth); }
    }
  }

  lemma ScalarEffect(f: Features, src: Source, src': Source, p: nat, n: nat, t: Token, depth: nat)
    requires Spliced(src, src', p, n) && t.end <= p && src.Ahead(t.start, t) && src'.Ahead(t.start, t)
    requires t.kind != ObjectBegin && t.kind != ArrayBegin && AcceptFrom(f, src, t, depth).Some?
    requires src.token(t.start) == t
    ensures AcceptFrom(f, src', t, depth) == AcceptFrom(f, src, t, depth)
    ensures AcceptFrom(f, src, t, depth).value.pos <= p
  {
    assert MeansTheSame(src, src', p, n, t);
  }

  /** The element that a comment brings into an empty array. */
  lemma CommentedElement(f: Features, src: Source, src': Source, p: nat, n: nat, pos: nat, depth: nat)
    requires Spliced(src, src', p, n) && pos <= p <= src.token(pos).start && src.token(pos).kind == ArrayEnd
    ensures var end := src.token(pos).end;
            AcceptValue(f, src', pos, depth)
            == if depth <= STACK_LIMIT && f.allowComments && f.allowDroppedNullPlaceholders
               then Some(Reading(NullV, end - 1 + n)) else None
  {
    assert BeforeAt(src, src', p, n, pos) && BehindAt(src, src', p, n, p);
    assert PastComments(src', pos) == PastComments(src', p + n) == Shift(src.token(pos), n);
  }

  lemma CommentedElementEnds(src: Source, src': Source, p: nat, n: nat, pos: nat)
    requires Spliced(src, src', p, n) && pos <= p <= src.token(pos).start && src.token(pos).kind == ArrayEnd
    ensures var end := src.token(pos).end;
            0 < end && PastComments(src', end - 1 + n) == Shift(src.token(pos), n)
  {
    assert BeforeAt(src, src', p, n, pos) && PlainAt(src, pos);
    var t := src.token(pos);
    assert src.Ahead(pos, t);
    assert BehindAt(src, src', p, n, t.end - 1);
  }

  /** So that a comment makes an empty array an array of one null, if it is accepted. */
  lemma CommentedArrayIsRead(f: Features, src: Source, src': Source, p: nat, n: nat, pos: nat, depth: nat)
    requires Spliced(src, src', p, n) && pos <= p <= src.token(pos).start && src.token(pos).kind == ArrayEnd
    ensures AcceptElements(f, src', pos, depth, [], 0)
            == if depth < STACK_LIMIT && f.allowComments && f.allowDroppedNullPlaceholders
               then Some(Reading(ArrayV([Entry(Index(0), NullV)]), src.token(pos).end + n)) else None
  {
    var end := src.token(pos).end;
    CommentedElement(f, src, src', p, n, pos, depth + 1);
    CommentedElementEnds(src, src', p, n, pos);
    if depth < STACK_LIMIT && f.allowComments && f.allowDroppedNullPlaceholders {
      ElementRead(f, src', pos, depth, [], 0, Reading(NullV, end - 1 + n));
      assert Put([], Index(0), NullV) == [Entry(Index(0), NullV)];
    }
  }

  lemma EmptyArrayEffect(f: Features, src: Source, src': Source, p: nat, n: nat, t: Token, depth: nat)
    requires Spliced(src, src', p, n) && t.end <= p && src.Ahead(t.start, t) && src'.Ahead(t.start, t)
    requires t.kind == ArrayBegin && src.token(t.end).kind == ArrayEnd
    ensures AcceptFrom(f, src, t, depth).Some?
    ensures Effect(f, p, n, FromPlace(f, src, t, depth, p), AcceptFrom(f, src, t, depth).value,
                   AcceptFrom(f, src', t, depth))
  {
    var next := src.token(t.end);
    assert src.Ahead(t.end, next);
    assert BeforeAt(src, src', p, n, t.end);
    if p <= next.start {
      assert AcceptFrom(f, src', t, depth) == AcceptElements(f, src', t.end, depth, [], 0);
      CommentedArrayIsRead(f, src, src', p, n, t.end, depth);
    }
  }

  lemma NotEmpty(f: Features, src: Source, src': Source, p: nat, n: nat, pos: nat, depth: nat)
    requires Spliced(src, src', p, n) && pos <= p && src.token(pos).kind != ArrayEnd
    requires AcceptValue(f, src, pos, depth + 1).Some? && ValuePlace(f, src, pos, depth + 1, p) != InToken
    ensures src'.token(pos).kind != ArrayEnd
  {
    var t := src.token(pos);
    assert src.Ahead(pos, t);
    assert BeforeAt(src, src', p, n, pos);
    FirstToken(f, src, pos, depth + 1);
    if t.end <= p && t.kind == Comment { assert t.end <= PastComments(src, t.end).start; }
  }

  lemma {:induction false} ElementsEffect(f: Features, src: Source, src': Source, p: nat, n: nat, pos: nat, depth: nat,
                                          es: seq<Entry>, i: nat)
    requires Spliced(src, src', p, n) && pos <= p && AcceptElements(f, src, pos, depth, es, i).Some?
    ensures AcceptValue(f, src, pos, depth + 1).Some?
    ensures Effect(f, p, n, ElementsPlace(f, src, pos, depth, p), AcceptElements(f, src, pos, depth, es, i).value,
                   AcceptElements(f, src', pos, depth, es, i))
    decreases src.size - pos, 3
  {
    var r := AcceptValue(f, src, pos, depth + 1).value;
    ValueEffect(f, src, src', p, n, pos, depth + 1);
    var place := ValuePlace(f, src, pos, depth + 1, p);
    if place == Behind {
      NextElementEffect(f, src, src', p, n, r.pos, depth, Put(es, Index(i), r.root), i);
    } else if place != InToken {
      ElementChanges(f, src, src', p, n, pos, depth, es, i, place, r, AcceptValue(f, src', pos, depth + 1),
                     AcceptElements(f, src, pos, depth, es, i).value, AcceptElements(f, src', pos, depth, es, i));
    }
  }

  lemma {:induction false} NextElementEffect(f: Features, src: Source, src': Source, p: nat, n: nat, pos: nat,
                                             depth: nat, es: seq<Entry>, i: nat)
    requires Spliced(src, src', p, n) && pos <= p && AcceptNextElement(f, src, pos, depth, es, i).Some?
    ensures Effect(f, p, n, NextElementPlace(f, src, pos, depth, p),
                   AcceptNextElement(f, src, pos, depth, es, i).value, AcceptNextElement(f, src', pos, depth, es, i))
    decreases src.size - pos, 2
  {
    var t := PastComments(src, pos);
    match MeetPast(src, pos, p)
    case Met =>
      PastMet(src, src', p, n, pos);
      if t.kind == ArraySeparator { ElementsShift(f, src, src', p, n, t.end, depth, es, i + 1); }
    case Inside =>
    case Passed =>
      PastPassed(src, src', p, n, pos);
      if t.kind == ArraySeparator { ElementsEffect(f, src, src', p, n, t.end, depth, es, i + 1); }
  }

  /** A change inside a child shows in the container, unless it is overwritten there. */
  lemma ChangeShows(f: Features, p: nat, n: nat, place: Place, r: Reading, r': Option<Reading>, place': Place,
                    g: Reading, h: Option<Reading>)
    requires place != Behind && place != InToken && Effect(f, p, n, place, r, r') && Survives(f, place)
    requires place' != Behind && place' != InToken && Survives(f, place')
    requires r.pos <= g.pos && Container(g.root) && (h.Some? ==> Container(h.value.root))
    requires Parallel(Some(g), h, Transparent(f, place'))
    ensures Effect(f, p, n, place', g, ShiftReading(h, n))
  {
  }

  /** The comment stands inside element i. */
  lemma ElementChanges(f: Features, src: Source, src': Source, p: nat, n: nat, pos: nat, depth: nat, es: seq<Entry>,
                       i: nat, place: Place, r: Reading, r': Option<Reading>, g: Reading, g': Option<Reading>)
    requires Spliced(src, src', p, n) && pos <= p && place != Behind && place != InToken
    requires AcceptValue(f, src, pos, depth + 1) == Some(r) && AcceptValue(f, src', pos, depth + 1) == r'
    requires AcceptElements(f, src, pos, depth, es, i) == Some(g)
    requires AcceptElements(f, src', pos, depth, es, i) == g'
    requires Effect(f, p, n, place, r, r')
    ensures Effect(f, p, n, place, g, g')
  {
    ElementRead(f, src, pos, depth, es, i, r);
    if Survives(f, place) {
      var h := ElementReplaced(f, src, src', p, n, pos, depth, es, i, r, r'.value, g, g');
      ChangeShows(f, p, n, place, r, r', place, g, h);
    }
  }

  lemma ElementReplaced(f: Features, src: Source, src': Source, p: nat, n: nat, pos: nat, depth: nat, es: seq<Entry>,
                        i: nat, r: Reading, r': Reading, g: Reading, g': Option<Reading>)
    returns (h: Option<Reading>)
    requires Spliced(src, src', p, n) && pos <= p <= r.pos && r'.pos == r.pos + n
    requires AcceptValue(f, src, pos, depth + 1) == Some(r) && AcceptValue(f, src', pos, depth + 1) == Some(r')
    requires AcceptElements(f, src, pos, depth, es, i) == Some(g)
    requires AcceptElements(f, src', pos, depth, es, i) == g'
    ensures g' == ShiftReading(h, n) && Parallel(Some(g), h, r.root == r'.root)
    ensures h.Some? ==> h.value.root.ArrayV?
  {
    ElementRead(f, src, pos, depth, es, i, r);
    ElementRead(f, src', pos, depth, es, i, r');
    NextElementShift(f, src, src', p, n, r.pos, depth, Put(es, Index(i), r'.root), i);
    NextElementDiverges(f, src, r.pos, depth, es, i, r.root, r'.root, i);
    h := AcceptNextElement(f, src, r.pos, depth, Put(es, Index(i), r'.root), i);
  }

  lemma {:induction false} MembersEffect(f: Features, src: Source, src': Source, p: nat, n: nat, pos: nat, depth: nat,
                                         es: seq<Entry>, name: bytes)
    requires Spliced(src, src', p, n) && pos <= p && AcceptMembers(f, src, pos, depth, es, name).Some?
    ensures Effect(f, p, n, MembersPlace(f, src, pos, depth, p), AcceptMembers(f, src, pos, depth, es, name).value,
                   AcceptMembers(f, src', pos, depth, es, name))
    decreases src.size - pos, 2
  {
    var t := PastComments(src, pos);
    match MeetPast(src, pos, p)
    case Met =>
      PastMet(src, src', p, n, pos);
      NameBehind(src, src', p, n, pos);
      if t.kind == StringToken {
        var s := src.text(t).value;
        NameRead(f, src, pos, depth, es, name, t, s);
        NameRead(f, src', pos, depth, es, name, Shift(t, n), s);
        MemberShift(f, src, src', p, n, t.end, depth, es, s);
      }
    case Inside =>
    case Passed =>
      PastPassed(src, src', p, n, pos);
      NameBefore(src, src', p, n, pos);
      if t.kind == StringToken {
        var s := src.text(t).value;
        NameRead(f, src, pos, depth, es, name, t, s);
        NameRead(f, src', pos, depth, es, name, t, s);
        MemberEffect(f, src, src', p, n, t.end, depth, es, s);
      }
  }

  lemma {:induction false} MemberEffect(f: Features, src: Source, src': Source, p: nat, n: nat, pos: nat, depth: nat,
                                        es: seq<Entry>, name: bytes)
    requires Spliced(src, src', p, n) && pos <= p && AcceptMember(f, src, pos, depth, es, name).Some?
    ensures Effect(f, p, n, MemberPlace(f, src, pos, depth, name, p), AcceptMember(f, src, pos, depth, es, name).value,
                   AcceptMember(f, src', pos, depth, es, name))
    decreases src.size - pos, 5
  {
    var colon := src.token(pos);
    assert src.Ahead(pos, colon);
    assert BeforeAt(src, src', p, n, pos);
    if MeetToken(colon, p) == Passed { MemberValueEffect(f, src, src', p, n, colon.end, depth, es, name); }
  }

  lemma {:induction false} MemberValueEffect(f: Features, src: Source, src': Source, p: nat, n: nat, pos: nat,
                                             depth: nat, es: seq<Entry>, name: bytes)
    requires Spliced(src, src', p, n) && pos <= p && AcceptMemberValue(f, src, pos, depth, es, name).Some?
    ensures Effect(f, p, n, MemberValuePlace(f, src, pos, depth, name, p),
                   AcceptMemberValue(f, src, pos, depth, es, name).value,
                   AcceptMemberValue(f, src', pos, depth, es, name))
    decreases src.size - pos, 4
  {
    var r := AcceptValue(f, src, pos, depth + 1).value;
    ValueEffect(f, src, src', p, n, pos, depth + 1);
    var place := ValuePlace(f, src, pos, depth + 1, p);
    if place == Behind {
      NextMemberEffect(f, src, src', p, n, r.pos, depth, Put(es, Name(name), r.root), name);
    } else if place != InToken {
      MemberChanges(f, src, src', p, n, pos, depth, es, name, place, r, AcceptValue(f, src', pos, depth + 1),
                    AcceptMemberValue(f, src, pos, depth, es, name).value,
                    AcceptMemberValue(f, src', pos, depth, es, name));
    }
  }

  lemma {:induction false} NextMemberEffect(f: Features, src: Source, src': Source, p: nat, n: nat, pos: nat,
                                            depth: nat, es: seq<Entry>, name: bytes)
    requires Spliced(src, src', p, n) && pos <= p && AcceptNextMember(f, src, pos, depth, es, name).Some?
    ensures Effect(f, p, n, NextMemberPlace(f, src, pos, depth, p),
                   AcceptNextMember(f, src, pos, depth, es, name).value, AcceptNextMember(f, src', pos, depth, es, name))
    decreases src.size - pos, 3
  {
    var comma := PastComments(src, pos);
    NextMemberEnds(f, src, src', p, n, pos, depth, es, name);
    assert BeforeAt(src, src', p, n, pos);
    SeparatorRead(f, src, pos, depth, es, name, comma);
    match MeetPast(src, pos, p)
    case Met =>
      PastMet(src, src', p, n, pos);
      SeparatorRead(f, src', pos, depth, es, name, Shift(comma, n));
      if comma.kind != ObjectEnd { MembersShift(f, src, src', p, n, comma.end, depth, es, name); }
    case Inside =>
    case Passed =>
      PastPassed(src, src', p, n, pos);
      SeparatorRead(f, src', pos, depth, es, name, comma);
      if comma.kind != ObjectEnd { MembersEffect(f, src, src', p, n, comma.end, depth, es, name); }
  }

  /** What is taken for the separator is no empty token, and does not end the document unless it is a brace. */
  lemma NextMemberEnds(f: Features, src: Source, src': Source, p: nat, n: nat, pos: nat, depth: nat, es: seq<Entry>,
                       name: bytes)
    requires Spliced(src, src', p, n) && pos <= p && AcceptNextMember(f, src, pos, depth, es, name).Some?
    ensures var comma := PastComments(src, pos); comma.start < comma.end && Finished(comma, src.size)
  {
    EmptyAtTheEnd(src, src', p, n, pos);
    NothingAtTheEnd(f, src, depth, es, name);
  }

  /** The comment stands inside the value of the member. */
  lemma MemberChanges(f: Features, src: Source, src': Source, p: nat, n: nat, pos: nat, depth: nat, es: seq<Entry>,
                      name: bytes, place: Place, r: Reading, r': Option<Reading>, g: Reading, g': Option<Reading>)
    requires Spliced(src, src', p, n) && pos <= p && place != Behind && place != InToken
    requires AcceptValue(f, src, pos, depth + 1) == Some(r) && AcceptValue(f, src', pos, depth + 1) == r'
    requires AcceptMemberValue(f, src, pos, depth, es, name) == Some(g)
    requires AcceptMemberValue(f, src', pos, depth, es, name) == g'
    requires Effect(f, p, n, place, r, r')
    ensures Effect(f, p, n, InMember(place, Overwritten(f, src, r.pos, depth, name)), g, g')
  {
    MemberRead(f, src, pos, depth, es, name, r);
    if Survives(f, place) {
      var h, o := MemberReplaced(f, src, src', p, n, pos, depth, es, name, r, r'.value, g, g');
      ChangeShows(f, p, n, place, r, r', InMember(place, o), g, h);
    }
  }

  lemma MemberReplaced(f: Features, src: Source, src': Source, p: nat, n: nat, pos: nat, depth: nat, es: seq<Entry>,
                       name: bytes, r: Reading, r': Reading, g: Reading, g': Option<Reading>)
    returns (h: Option<Reading>, overwritten: bool)
    requires Spliced(src, src', p, n) && pos <= p <= r.pos && r'.pos == r.pos + n
    requires AcceptValue(f, src, pos, depth + 1) == Some(r) && AcceptValue(f, src', pos, depth + 1) == Some(r')
    requires AcceptMemberValue(f, src, pos, depth, es, name) == Some(g)
    requires AcceptMemberValue(f, src', pos, depth, es, name) == g'
    ensures g' == ShiftReading(h, n) && Parallel(Some(g), h, r.root == r'.root || overwritten)
    ensures h.Some? ==> h.value.root.ObjectV?
    ensures overwritten == Overwritten(f, src, r.pos, depth, name)
  {
    MemberRead(f, src, pos, depth, es, name, r);
    MemberRead(f, src', pos, depth, es, name, r');
    NextMemberShift(f, src, src', p, n, r.pos, depth, Put(es, Name(name), r'.root), name);
    NextMemberDiverges(f, src, r.pos, depth, es, name, r.root, r'.root, name);
    h := AcceptNextMember(f, src, r.pos, depth, Put(es, Name(name), r'.root), name);
    overwritten := Overwritten(f, src, r.pos, depth, name);
  }

  // ---------- the theorem ----------

  /** Where position p lies in a document. */
  function PlaceOf(f: Features, src: Source, p: nat): Place
    requires src.Forward()
  {
    ValuePlace(f, src, 0, 1, p)
  }

  lemma SplicedParse(f: Features, src: Source, src': Source, p: nat, n: nat, was: Value)
    requires Spliced(src, src', p, n) && PlaceOf(f, src, p) != InToken
    requires var r := Parse(f, src, was); r.Result? && r.ok
    ensures var r' := Parse(f, src', was);
            && (r'.Result? && r'.ok <==> Survives(f, PlaceOf(f, src, p)))
            && (r' == Parse(f, src, was) <==> Transparent(f, PlaceOf(f, src, p)))
  {
    ParseAccepts(f, src, was);
    ParseAccepts(f, src', was);
    ValueEffect(f, src, src', p, n, 0, 1);
  }

  /**
   A comment put into an accepted document, anywhere but inside a token: the document is
   still accepted exactly if the comment survives there, and means the same exactly if it
   is transparent there.
   */
  lemma InsertedComment(f: Features, toDouble: bytes -> Option<real>, doc: bytes, p: nat, c: bytes, was: Value)
    requires p <= |doc| && IsComment(c) && SourceOf(toDouble, doc).Forward()
    requires var r := Parse(f, SourceOf(toDouble, doc), was); r.Result? && r.ok
    requires PlaceOf(f, SourceOf(toDouble, doc), p) != InToken
    ensures SourceOf(toDouble, Insert(doc, p, c)).Forward()
    ensures var place := PlaceOf(f, SourceOf(toDouble, doc), p);
            var r' := Parse(f, SourceOf(toDouble, Insert(doc, p, c)), was);
            && (r'.Result? && r'.ok <==> Survives(f, place))
            && (r' == Parse(f, SourceOf(toDouble, doc), was) <==> Transparent(f, place))
  {
    DocumentIsSpliced(toDouble, doc, p, c);
    SplicedParse(f, SourceOf(toDouble, doc), SourceOf(toDouble, Insert(doc, p, c)), p, |c|, was);
  }
}
