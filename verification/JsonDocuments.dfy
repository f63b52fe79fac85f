/**
 The texts of RFC 8259, by their own grammar: values, the blanks that may stand
 around every one of their parts, and what they denote.  Every one of them is
 read as what it denotes.
 */
module JsonDocuments {
  import opened Wrappers
  import opened Bytes
  import opened JsonNumberTexts
  import opened JsonStrings
  import opened JsonValue
  import opened JsonWriter
  import opened JsonNumberTokens
  import opened JsonGrammar
  import opened JsonTrees
  import opened JsonTexts
  import opened JsonEscapes

  // ---------- texts ----------

  datatype Node =
    | NullN
    | TrueN
    | FalseN
    | NumberN(n: Parts)
    | StringN(pieces: seq<Piece>)
    | ArrayN(items: seq<Item>)
    | ObjectN(fields: seq<Field>)
    | EmptyArrayN(blank: bytes)
    | EmptyObjectN(blank: bytes)

  /** A value between blanks. */
  datatype Item = Item(before: bytes, node: Node, after: bytes)

  /** A name between blanks, and behind the colon a value between blanks. */
  datatype Field = Field(before: bytes, name: seq<Piece>, gap: bytes, value: Item)

  ghost predicate WellFormed(n: Node)
    decreases n, 1
  {
    match n
    case NumberN(parts) => parts.Proper()
    case StringN(ps) => ProperPieces(ps)
    case ArrayN(items) => items != [] && forall i | 0 <= i < |items| :: WellFormedItem(items[i])
    case ObjectN(fields) => fields != [] && forall i | 0 <= i < |fields| :: WellFormedField(fields[i])
    case EmptyArrayN(blank) => Blank(blank)
    case EmptyObjectN(blank) => Blank(blank)
    case _ => true
  }

  ghost predicate ProperPieces(ps: seq<Piece>) {
    forall i | 0 <= i < |ps| :: JsonEscapes.Proper(ps[i])
  }

  ghost predicate WellFormedItem(it: Item)
    decreases it, 0
  {
    Blank(it.before) && WellFormed(it.node) && Blank(it.after)
  }

  ghost predicate WellFormedField(fd: Field)
    decreases fd, 0
  {
    Blank(fd.before) && ProperPieces(fd.name) && Blank(fd.gap) && WellFormedItem(fd.value)
  }

  function StringText(ps: seq<Piece>): bytes {
    [0x22] + PieceTexts(ps) + [0x22]
  }

  function NodeText(n: Node): bytes
    decreases n, 1
  {
    match n
    case NullN => [0x6E, 0x75, 0x6C, 0x6C]
    case TrueN => [0x74, 0x72, 0x75, 0x65]
    case FalseN => [0x66, 0x61, 0x6C, 0x73, 0x65]
    case NumberN(parts) => parts.Text()
    case StringN(ps) => StringText(ps)
    case ArrayN(items) => [0x5B] + ItemsText(items) + [0x5D]
    case ObjectN(fields) => [0x7B] + FieldsText(fields) + [0x7D]
    case EmptyArrayN(blank) => [0x5B] + blank + [0x5D]
    case EmptyObjectN(blank) => [0x7B] + blank + [0x7D]
  }

  function ItemText(it: Item): bytes
    decreases it, 0
  {
    it.before + (NodeText(it.node) + it.after)
  }

  /** The elements with a comma between one and the next. */
  function ItemsText(items: seq<Item>): bytes
    decreases items, 0
  {
    if items == [] then []
    else if |items| == 1 then ItemText(items[0])
    else ItemText(items[0]) + ([0x2C] + ItemsText(items[1..]))
  }

  function FieldText(fd: Field): bytes
    decreases fd, 0
  {
    fd.before + (StringText(fd.name) + (fd.gap + ([0x3A] + ItemText(fd.value))))
  }

  function FieldsText(fields: seq<Field>): bytes
    decreases fields, 0
  {
    if fields == [] then []
    else if |fields| == 1 then FieldText(fields[0])
    else FieldText(fields[0]) + ([0x2C] + FieldsText(fields[1..]))
  }

  // ---------- what they denote ----------

  ghost predicate StringDenotes(ps: seq<Piece>, s: bytes) {
    exists parts: seq<bytes> :: Spell(ps, parts) && s == Concat(parts)
  }

  /** The tree a text stands for, given the conversion of text to double. */
  ghost predicate NodeDenotes(toDouble: bytes -> Option<real>, n: Node, t: Tree)
    requires WellFormed(n)
    decreases n, 1
  {
    match n
    case NullN => t == NullT
    case TrueN => t == BoolT(true)
    case FalseN => t == BoolT(false)
    case NumberN(parts) => t.NumberT? && Denoted(toDouble, parts) == Some(t.number)
    case StringN(ps) => t.StringT? && StringDenotes(ps, t.s)
    case ArrayN(items) =>
      t.ArrayT? && |t.items| == |items| && forall i | 0 <= i < |items| :: ItemDenotes(toDouble, items[i], t.items[i])
    case ObjectN(fields) =>
      t.ObjectT? && |t.members| == |fields|
      && forall i | 0 <= i < |fields| :: FieldDenotes(toDouble, fields[i], t.members[i])
    case EmptyArrayN(_) => t == ArrayT([])
    case EmptyObjectN(_) => t == ObjectT([])
  }

  ghost predicate ItemDenotes(toDouble: bytes -> Option<real>, it: Item, t: Tree)
    requires WellFormedItem(it)
    decreases it, 0
  {
    NodeDenotes(toDouble, it.node, t)
  }

  ghost predicate FieldDenotes(toDouble: bytes -> Option<real>, fd: Field, m: Member)
    requires WellFormedField(fd)
    decreases fd, 0
  {
    StringDenotes(fd.name, m.name) && ItemDenotes(toDouble, fd.value, m.value)
  }

  // ---------- strings ----------

  lemma {:induction false} SpellOne(ps: seq<Piece>, parts: seq<bytes>, parts': seq<bytes>)
    requires Spell(ps, parts) && Spell(ps, parts')
    ensures parts == parts'
  {
    forall i | 0 <= i < |ps| ensures parts[i] == parts'[i] { DenotesOne(ps[i], parts[i], parts'[i]); }
  }

  lemma StringIsQuoted(ps: seq<Piece>, s: bytes)
    requires ProperPieces(ps) && StringDenotes(ps, s)
    ensures Unescape(PieceTexts(ps)) == Some(s) && Skipped(PieceTexts(ps))
  {
    var parts :| Spell(ps, parts) && s == Concat(parts);
    var parts' := PiecesAreRead(ps);
    SpellOne(ps, parts, parts');
  }

  lemma StringNodeIsShown(src: Source, doc: bytes, ps: seq<Piece>, s: bytes)
    requires Lexes(src, doc) && ProperPieces(ps) && StringDenotes(ps, s)
    ensures StringShownBy(src, doc, StringText(ps), s) && ShownBy(src, doc, StringText(ps), 0, StringT(s))
  {
    var inner := PieceTexts(ps);
    StringIsQuoted(ps, s);
    forall pos: nat | At(doc, pos, StringText(ps)) ensures ReadsAs(doc, pos, StringText(ps), s) {
      SkippedInQuotes(doc, pos, inner, s, StringText(ps));
    }
    StringIsShown(src, doc, StringText(ps), s);
  }

  // ---------- containers ----------

  function ItemLines(items: seq<Item>): seq<bytes> {
    seq(|items|, i requires 0 <= i < |items| => ItemText(items[i]))
  }

  function ItemTails(items: seq<Item>): seq<nat> {
    seq(|items|, i requires 0 <= i < |items| => |items[i].after|)
  }

  function FieldLines(fields: seq<Field>): seq<bytes> {
    seq(|fields|, i requires 0 <= i < |fields| => FieldText(fields[i]))
  }

  function FieldTails(fields: seq<Field>): seq<nat> {
    seq(|fields|, i requires 0 <= i < |fields| => |fields[i].value.after|)
  }

  lemma {:induction false} ItemsTextIs(items: seq<Item>)
    ensures ItemsText(items) == Join(ItemLines(items))
    decreases |items|
  {
    if |items| > 1 {
      ItemsTextIs(items[1..]);
      assert ItemLines(items)[1..] == ItemLines(items[1..]);
      JoinFront(ItemLines(items));
    }
  }

  lemma {:induction false} FieldsTextIs(fields: seq<Field>)
    ensures FieldsText(fields) == Join(FieldLines(fields))
    decreases |fields|
  {
    if |fields| > 1 {
      FieldsTextIs(fields[1..]);
      assert FieldLines(fields)[1..] == FieldLines(fields[1..]);
      JoinFront(FieldLines(fields));
    }
  }

  // ---------- every text spells its tree ----------

  lemma NumberNodeIsShown(src: Source, toDouble: bytes -> Option<real>, doc: bytes, n: Parts, number: Value)
    requires Tokenizes(src, toDouble, doc) && n.Proper() && Denoted(toDouble, n) == Some(number)
    ensures ShownBy(src, doc, n.Text(), 0, NumberT(number))
  {
    NumberDenotes(toDouble, n);
    assert IsNumber(n.Text());
    NumberIsShown(src, toDouble, doc, n.Text(), Some(number));
  }

  lemma {:induction false} ItemIsShown(src: Source, toDouble: bytes -> Option<real>, doc: bytes, it: Item, t: Tree)
    requires Tokenizes(src, toDouble, doc) && WellFormedItem(it) && ItemDenotes(toDouble, it, t)
    ensures ShownBy(src, doc, ItemText(it), |it.after|, t)
    decreases it, 0
  {
    NodeIsShown(src, toDouble, doc, it.node, t);
    PaddedIsShown(src, doc, it.before, NodeText(it.node), it.after, t);
  }

  lemma {:induction false} FieldIsShown(src: Source, toDouble: bytes -> Option<real>, doc: bytes, fd: Field, m: Member)
    requires Tokenizes(src, toDouble, doc) && WellFormedField(fd) && FieldDenotes(toDouble, fd, m)
    ensures MemberShownBy(src, doc, FieldText(fd), |fd.value.after|, m)
    decreases fd, 0
  {
    StringNodeIsShown(src, doc, fd.name, m.name);
    ItemIsShown(src, toDouble, doc, fd.value, m.value);
    MemberIsShown(src, doc, fd.before, StringText(fd.name), fd.gap, ItemText(fd.value), |fd.value.after|, m);
  }

  lemma {:induction false} ItemsAreShown(src: Source, toDouble: bytes -> Option<real>, doc: bytes, items: seq<Item>,
                                         ts: seq<Tree>)
    requires Tokenizes(src, toDouble, doc) && |items| == |ts| > 0
    requires forall i | 0 <= i < |items| :: WellFormedItem(items[i]) && ItemDenotes(toDouble, items[i], ts[i])
    ensures ShownBy(src, doc, [LBRACKET] + ItemsText(items) + [RBRACKET], 0, ArrayT(ts))
    decreases items, 1
  {
    forall j | 0 <= j < |items| ensures ShownBy(src, doc, ItemLines(items)[j], ItemTails(items)[j], ts[j]) {
      ItemIsShown(src, toDouble, doc, items[j], ts[j]);
    }
    ItemsTextIs(items);
    BracketedIsShown(src, doc, ItemLines(items), ItemTails(items), ts);
  }

  lemma {:induction false} FieldsAreShown(src: Source, toDouble: bytes -> Option<real>, doc: bytes, fields: seq<Field>,
                                          ms: seq<Member>)
    requires Tokenizes(src, toDouble, doc) && |fields| == |ms| > 0
    requires forall i | 0 <= i < |fields| :: WellFormedField(fields[i]) && FieldDenotes(toDouble, fields[i], ms[i])
    ensures ShownBy(src, doc, [LBRACE] + FieldsText(fields) + [RBRACE], 0, ObjectT(ms))
    decreases fields, 1
  {
    forall j | 0 <= j < |fields| ensures MemberShownBy(src, doc, FieldLines(fields)[j], FieldTails(fields)[j], ms[j]) {
      FieldIsShown(src, toDouble, doc, fields[j], ms[j]);
    }
    FieldsTextIs(fields);
    BracedIsShown(src, doc, FieldLines(fields), FieldTails(fields), ms);
  }

  /** Wherever a text stands, the tokens there spell the tree it denotes. */
  lemma {:induction false} NodeIsShown(src: Source, toDouble: bytes -> Option<real>, doc: bytes, n: Node, t: Tree)
    requires Tokenizes(src, toDouble, doc) && WellFormed(n) && NodeDenotes(toDouble, n, t)
    ensures ShownBy(src, doc, NodeText(n), 0, t)
    decreases n, 1
  {
    match n
    case NullN => KeywordIsShown(src, doc, NULL_TEXT);
    case TrueN => KeywordIsShown(src, doc, TRUE_TEXT);
    case FalseN => KeywordIsShown(src, doc, FALSE_TEXT);
    case NumberN(parts) => NumberNodeIsShown(src, toDouble, doc, parts, t.number);
    case StringN(ps) => StringNodeIsShown(src, doc, ps, t.s);
    case ArrayN(items) => ItemsAreShown(src, toDouble, doc, items, t.items);
    case ObjectN(fields) => FieldsAreShown(src, toDouble, doc, fields, t.members);
    case EmptyArrayN(blank) => EmptyIsShown(src, doc, blank);
    case EmptyObjectN(blank) => EmptyIsShown(src, doc, blank);
  }

  // ---------- every text denotes a tree ----------

  /** All its numbers can be converted. */
  ghost predicate Converts(toDouble: bytes -> Option<real>, n: Node)
    requires WellFormed(n)
    decreases n, 1
  {
    match n
    case NumberN(parts) => Denoted(toDouble, parts).Some?
    case ArrayN(items) => forall i | 0 <= i < |items| :: ItemConverts(toDouble, items[i])
    case ObjectN(fields) => forall i | 0 <= i < |fields| :: FieldConverts(toDouble, fields[i])
    case _ => true
  }

  ghost predicate ItemConverts(toDouble: bytes -> Option<real>, it: Item)
    requires WellFormedItem(it)
    decreases it, 0
  {
    Converts(toDouble, it.node)
  }

  ghost predicate FieldConverts(toDouble: bytes -> Option<real>, fd: Field)
    requires WellFormedField(fd)
    decreases fd, 0
  {
    ItemConverts(toDouble, fd.value)
  }

  lemma StringHasBytes(ps: seq<Piece>) returns (s: bytes)
    requires ProperPieces(ps)
    ensures StringDenotes(ps, s)
  {
    var parts := PiecesAreRead(ps);
    s := Concat(parts);
  }

  lemma {:induction false} ItemHasTree(toDouble: bytes -> Option<real>, it: Item) returns (t: Tree)
    requires WellFormedItem(it) && ItemConverts(toDouble, it)
    ensures ItemDenotes(toDouble, it, t)
    decreases it, 0
  {
    t := NodeHasTree(toDouble, it.node);
  }

  lemma {:induction false} FieldHasTree(toDouble: bytes -> Option<real>, fd: Field) returns (m: Member)
    requires WellFormedField(fd) && FieldConverts(toDouble, fd)
    ensures FieldDenotes(toDouble, fd, m)
    decreases fd, 0
  {
    var name := StringHasBytes(fd.name);
    var t := ItemHasTree(toDouble, fd.value);
    m := Member(name, t);
  }

  lemma {:induction false} ItemsHaveTrees(toDouble: bytes -> Option<real>, items: seq<Item>) returns (ts: seq<Tree>)
    requires forall i | 0 <= i < |items| :: WellFormedItem(items[i]) && ItemConverts(toDouble, items[i])
    ensures |ts| == |items| && forall i | 0 <= i < |items| :: ItemDenotes(toDouble, items[i], ts[i])
    decreases items, 1
  {
    if items == [] {
      ts := [];
    } else {
      var t := ItemHasTree(toDouble, items[0]);
      var rest := ItemsHaveTrees(toDouble, items[1..]);
      ts := [t] + rest;
    }
  }

  lemma {:induction false} FieldsHaveTrees(toDouble: bytes -> Option<real>, fields: seq<Field>)
    returns (ms: seq<Member>)
    requires forall i | 0 <= i < |fields| :: WellFormedField(fields[i]) && FieldConverts(toDouble, fields[i])
    ensures |ms| == |fields| && forall i | 0 <= i < |fields| :: FieldDenotes(toDouble, fields[i], ms[i])
    decreases fields, 1
  {
    if fields == [] {
      ms := [];
    } else {
      var m := FieldHasTree(toDouble, fields[0]);
      var rest := FieldsHaveTrees(toDouble, fields[1..]);
      ms := [m] + rest;
    }
  }

  /** Every text denotes a tree, as soon as its numbers can be converted. */
  lemma {:induction false} NodeHasTree(toDouble: bytes -> Option<real>, n: Node) returns (t: Tree)
    requires WellFormed(n) && Converts(toDouble, n)
    ensures NodeDenotes(toDouble, n, t)
    decreases n, 1
  {
    match n
    case NullN => t := NullT;
    case TrueN => t := BoolT(true);
    case FalseN => t := BoolT(false);
    case NumberN(parts) => t := NumberT(Denoted(toDouble, parts).value);
    case StringN(ps) =>
      var s := StringHasBytes(ps);
      t := StringT(s);
    case ArrayN(items) =>
      var ts := ItemsHaveTrees(toDouble, items);
      t := ArrayT(ts);
    case ObjectN(fields) =>
      var ms := FieldsHaveTrees(toDouble, fields);
      t := ObjectT(ms);
    case EmptyArrayN(_) => t := ArrayT([]);
    case EmptyObjectN(_) => t := ObjectT([]);
  }

  // ---------- the theorem ----------

  /** JSON-text = ws value ws.  Every one is parsed as what it denotes, unless it is nested too deeply. */
  lemma JsonTextIsParsed(f: Features, toDouble: bytes -> Option<real>, text: Item, t: Tree, was: Value)
    requires WellFormedItem(text) && ItemDenotes(toDouble, text, t)
    ensures SourceOf(toDouble, ItemText(text)).Forward()
    ensures var p := Parse(f, SourceOf(toDouble, ItemText(text)), was);
            if Nesting(t) > STACK_LIMIT then p == Threw(StackLimitExceeded)
            else p.Result? && p.root == Meaning(t) && (p.ok <==> !f.strictRoot || Container(Meaning(t)))
  {
    var doc := ItemText(text);
    var src := SourceOf(toDouble, doc);
    DocumentIsTokenized(toDouble, doc);
    ItemIsShown(src, toDouble, doc, text, t);
    assert At(doc, 0, doc);
    TreeIsParsed(f, src, t, was, 0, |doc| - |text.after|);
  }
}
