/**
 Printing a value and reading the text back.
 */
module JsonRoundTrip {
  import opened Wrappers
  import opened Bytes
  import opened JsonStrings
  import opened JsonNumbers
  import opened JsonNumberTexts
  import opened JsonValue
  import opened JsonWriter
  import opened JsonLexer
  import opened JsonNumberTokens
  import opened JsonGrammar
  import opened JsonTrees
  import opened JsonTexts

  // ---------- the value that comes back ----------

  /** The kind of integer the reader picks. */
  function NormalInteger(i: int): Value
    requires i <= MAX_INT || i >= 0
  {
    if i <= MAX_INT then IntV(i) else UIntV(i)
  }

  /** The tree a printer writes for a value: integers in the reader's kind, strings recoded, holes filled with null. */
  function TreeOf(v: Value): Tree
    decreases Depth(v)
  {
    match v
    case NullV => NullT
    case BoolV(b) => BoolT(b)
    case IntV(i) => NumberT(NormalInteger(i))
    case UIntV(u) => NumberT(NormalInteger(u))
    case RealV(_) => NumberT(v)
    case StringV(s) => StringT(Recode(s))
    case ArrayV(es) =>
      ArrayT(seq(Size(es), i requires 0 <= i < Size(es) => DenseDepth(es, i); TreeOf(Dense(es)[i])))
    case ObjectV(es) =>
      ObjectT(seq(|es|, i requires 0 <= i < |es| => DepthOfEntry(es, i);
                          Member(Recode(KeyBytes(es[i].key)), TreeOf(es[i].value))))
  }

  function ItemTrees(vs: seq<Value>): seq<Tree> {
    seq(|vs|, i requires 0 <= i < |vs| => TreeOf(vs[i]))
  }

  function MemberTree(e: Entry): Member {
    Member(Recode(KeyBytes(e.key)), TreeOf(e.value))
  }

  function MemberTrees(es: seq<Entry>): seq<Member> {
    seq(|es|, i requires 0 <= i < |es| => MemberTree(es[i]))
  }

  lemma ContainerTree(es: seq<Entry>)
    ensures TreeOf(ArrayV(es)) == ArrayT(ItemTrees(Dense(es)))
    ensures TreeOf(ObjectV(es)) == ObjectT(MemberTrees(es))
  {
    assert ItemTrees(Dense(es)) == seq(Size(es), i requires 0 <= i < Size(es) => DenseDepth(es, i); TreeOf(Dense(es)[i]));
    assert MemberTrees(es) == seq(|es|, i requires 0 <= i < |es| => DepthOfEntry(es, i);
                                          Member(Recode(KeyBytes(es[i].key)), TreeOf(es[i].value)));
  }

  /** What a value comes back as; names that are recoded alike overwrite. */
  function Normal(v: Value): Value {
    Meaning(TreeOf(v))
  }

  // ---------- the tree is nested as deeply as the value ----------

  lemma {:induction false} ItemsNestingIs(items: seq<Tree>, d: nat)
    requires forall j | 0 <= j < |items| :: Nesting(items[j]) <= d
    requires items != [] ==> exists j | 0 <= j < |items| :: Nesting(items[j]) == d
    ensures items != [] ==> ItemsNesting(items) == d
    decreases |items|
  {
    ItemsNestingAtMost(items, d);
    if j :| 0 <= j < |items| && Nesting(items[j]) == d { ItemsNestingAtLeast(items, j); }
  }

  lemma {:induction false} ItemsNestingAtMost(items: seq<Tree>, d: nat)
    requires forall j | 0 <= j < |items| :: Nesting(items[j]) <= d
    ensures ItemsNesting(items) <= d
    decreases |items|
  {
    if items != [] { ItemsNestingAtMost(items[1..], d); }
  }

  lemma {:induction false} ItemsNestingAtLeast(items: seq<Tree>, j: nat)
    requires j < |items|
    ensures ItemsNesting(items) >= Nesting(items[j])
    decreases |items|
  {
    if j > 0 { ItemsNestingAtLeast(items[1..], j - 1); }
  }

  lemma {:induction false} MembersNestingIs(members: seq<Member>, es: seq<Entry>)
    requires |members| == |es| && forall j | 0 <= j < |es| :: Nesting(members[j].value) == Depth(es[j].value)
    ensures MembersNesting(members) == EntriesDepth(es)
    decreases |es|
  {
    if es != [] {
      MembersNestingIs(members[1..], es[1..]);
      assert MembersNesting(members) == Max(Nesting(members[0].value), MembersNesting(members[1..]));
    }
  }

  lemma {:induction false} ArrayNesting(es: seq<Entry>)
    requires Valid(ArrayV(es))
    requires forall j | 0 <= j < Size(es) :: Nesting(ItemTrees(Dense(es))[j]) == Depth(Dense(es)[j])
    ensures ItemsNesting(ItemTrees(Dense(es))) == EntriesDepth(es)
  {
    var items := ItemTrees(Dense(es));
    if es != [] {
      forall j | 0 <= j < Size(es) ensures Nesting(items[j]) <= EntriesDepth(es) { DenseDepth(es, j); }
      var i := DeepestEntry(es);
      EntryIsDense(es, i);
      assert Nesting(items[es[i].key.i]) == EntriesDepth(es);
      ItemsNestingIs(items, EntriesDepth(es));
    }
  }

  lemma {:induction false} NestingIsDepth(v: Value)
    requires Valid(v)
    ensures Nesting(TreeOf(v)) == Depth(v)
    decreases Depth(v)
  {
    match v
    case ArrayV(es) =>
      forall j | 0 <= j < Size(es) ensures Nesting(ItemTrees(Dense(es))[j]) == Depth(Dense(es)[j]) {
        DenseDepth(es, j);
        DenseValid(es, j);
        NestingIsDepth(Dense(es)[j]);
      }
      ContainerTree(es);
      ArrayNesting(es);
    case ObjectV(es) =>
      forall j | 0 <= j < |es| ensures Nesting(MemberTrees(es)[j].value) == Depth(es[j].value) {
        MemberValid(es, j);
        NestingIsDepth(es[j].value);
      }
      ContainerTree(es);
      MembersNestingIs(MemberTrees(es), es);
    case _ =>
  }

  // ---------- values that can be printed and read ----------

  /** The symbols of the printers, with or without the space of YAML compatibility, nulls kept. */
  predicate Standard(st: Style) {
    st.nullText == NULL_TEXT && (st.colon == [COLON] || st.colon == [COLON, SPACE])
  }

  /** The text printed for a double is a number that the conversion turns into the double again. */
  ghost predicate RealReadsBack(st: Style, toDouble: bytes -> Option<real>, r: real) {
    PrintedNumber(st.printReal(r)) && toDouble(RealText(st.printReal(r))) == Some(r)
  }

  ghost predicate RealsReadBack(st: Style, toDouble: bytes -> Option<real>, v: Value)
    decreases v
  {
    match v
    case RealV(r) => RealReadsBack(st, toDouble, r)
    case ArrayV(es) => forall i | 0 <= i < |es| :: RealsReadBack(st, toDouble, es[i].value)
    case ObjectV(es) => forall i | 0 <= i < |es| :: RealsReadBack(st, toDouble, es[i].value)
    case _ => true
  }

  ghost predicate Printable(st: Style, toDouble: bytes -> Option<real>, v: Value) {
    Standard(st) && Valid(v) && RealsReadBack(st, toDouble, v)
  }

  lemma ElementPrintable(st: Style, toDouble: bytes -> Option<real>, es: seq<Entry>, i: nat)
    requires Printable(st, toDouble, ArrayV(es)) && i < Size(es)
    ensures Printable(st, toDouble, Dense(es)[i]) && Depth(Dense(es)[i]) < Depth(ArrayV(es))
  {
    DenseDepth(es, i);
    DenseValid(es, i);
    FindIsEntry(es, Index(i));
  }

  // ---------- printed text shows the value ----------

  lemma IntegerIsShown(src: Source, toDouble: bytes -> Option<real>, doc: bytes, i: int)
    requires Tokenizes(src, toDouble, doc) && -MAX_LARGEST_INT - 1 <= i <= MAX_LARGEST_UINT
    ensures ShownBy(src, doc, SignedDecimal(i), 0, NumberT(NormalInteger(i)))
  {
    IntegerIsNumber(i);
    var text := TextOfInteger(toDouble, i);
    NumberIsShown(src, toDouble, doc, text, Some(NormalInteger(i)));
  }

  lemma TextOfInteger(toDouble: bytes -> Option<real>, i: int) returns (text: bytes)
    requires -MAX_LARGEST_INT - 1 <= i <= MAX_LARGEST_UINT
    ensures text == SignedDecimal(i) && text != [] && DecodeNumberText(toDouble, text) == Some(NormalInteger(i))
  {
    text := SignedDecimal(i);
    IntegerRoundTrip(i);
  }

  lemma TextOfReal(st: Style, toDouble: bytes -> Option<real>, r: real) returns (text: bytes)
    requires RealReadsBack(st, toDouble, r)
    ensures text == Text(st, RealV(r)) && text != [] && IsNumber(text)
    ensures DecodeNumberText(toDouble, text) == Some(RealV(r))
  {
    text := PrintedDenotes(toDouble, st.printReal(r), r);
  }

  lemma PrintedDenotes(toDouble: bytes -> Option<real>, printed: bytes, r: real) returns (text: bytes)
    requires PrintedNumber(printed) && toDouble(RealText(printed)) == Some(r)
    ensures text == RealText(printed) && text != [] && IsNumber(text)
    ensures DecodeNumberText(toDouble, text) == Some(RealV(r))
  {
    RealTextIsNumber(printed);
    text := RealText(printed);
    RealTextDenotes(toDouble, text, r);
  }

  lemma RealTextDenotes(toDouble: bytes -> Option<real>, text: bytes, r: real)
    requires text != [] && DecodeInteger(text) == None && toDouble(text) == Some(r)
    ensures DecodeNumberText(toDouble, text) == Some(RealV(r))
  {
  }

  lemma RealIsShown(src: Source, toDouble: bytes -> Option<real>, doc: bytes, st: Style, r: real)
    requires Tokenizes(src, toDouble, doc) && RealReadsBack(st, toDouble, r)
    ensures ShownBy(src, doc, Text(st, RealV(r)), 0, NumberT(RealV(r)))
  {
    var text := TextOfReal(st, toDouble, r);
    NumberIsShown(src, toDouble, doc, text, Some(RealV(r)));
  }

  lemma QuotedIsShown(src: Source, doc: bytes, s: bytes)
    requires Lexes(src, doc)
    ensures StringShownBy(src, doc, Quote(s), Recode(s)) && ShownBy(src, doc, Quote(s), 0, StringT(Recode(s)))
  {
    forall pos: nat | At(doc, pos, Quote(s)) ensures ReadsAs(doc, pos, Quote(s), Recode(s)) {
      QuotedReadsBack(doc, pos, s);
    }
    StringIsShown(src, doc, Quote(s), Recode(s));
  }

  lemma ScalarIsShown(src: Source, toDouble: bytes -> Option<real>, doc: bytes, st: Style, v: Value)
    requires Tokenizes(src, toDouble, doc) && Printable(st, toDouble, v) && !Container(v)
    ensures ShownBy(src, doc, Text(st, v), 0, TreeOf(v))
  {
    match v
    case NullV => KeywordIsShown(src, doc, NULL_TEXT);
    case BoolV(b) => KeywordIsShown(src, doc, if b then TRUE_TEXT else FALSE_TEXT);
    case IntV(i) => IntegerIsShown(src, toDouble, doc, i);
    case UIntV(u) => IntegerIsShown(src, toDouble, doc, u);
    case RealV(r) => RealIsShown(src, toDouble, doc, st, r);
    case StringV(s) => QuotedIsShown(src, doc, s);
  }

  /** The value of a member with the space that may be behind the colon. */
  lemma ColonIsShown(src: Source, doc: bytes, colon: bytes, text: bytes, t: Tree) returns (value: bytes)
    requires Lexes(src, doc) && (colon == [COLON] || colon == [COLON, SPACE]) && ShownBy(src, doc, text, 0, t)
    ensures colon + text == [COLON] + value && ShownBy(src, doc, value, 0, t)
  {
    value := Padded(colon[1..], text, []);
    assert text + [] == text && colon == [COLON] + colon[1..];
    Associative([COLON], colon[1..], text);
    PaddedIsShown(src, doc, colon[1..], text, [], t);
  }

  lemma MemberTextIsShown(src: Source, doc: bytes, st: Style, e: Entry)
    requires Lexes(src, doc) && Standard(st) && ShownBy(src, doc, Text(st, e.value), 0, TreeOf(e.value))
    ensures MemberShownBy(src, doc, MemberText(st, e), 0, MemberTree(e))
  {
    var name := Quote(KeyBytes(e.key));
    QuotedIsShown(src, doc, KeyBytes(e.key));
    var value := ColonIsShown(src, doc, st.colon, Text(st, e.value), TreeOf(e.value));
    MemberIsShown(src, doc, [], name, [], value, 0, MemberTree(e));
    LayoutWithoutBlanks(name, st.colon, Text(st, e.value), value);
  }

  lemma LayoutWithoutBlanks(name: bytes, colon: bytes, text: bytes, value: bytes)
    requires colon + text == [COLON] + value
    ensures MemberLayout([], name, [], value) == name + colon + text
  {
    Associative(name, colon, text);
    assert [] + ([COLON] + value) == [COLON] + value && [] + (name + ([COLON] + value)) == name + ([COLON] + value);
  }

  function Zeros(n: nat): seq<nat> {
    seq(n, i => 0)
  }

  lemma {:induction false} ArrayIsShown(src: Source, toDouble: bytes -> Option<real>, doc: bytes, st: Style,
                                        es: seq<Entry>)
    requires Tokenizes(src, toDouble, doc) && Printable(st, toDouble, ArrayV(es))
    ensures ShownBy(src, doc, Text(st, ArrayV(es)), 0, TreeOf(ArrayV(es)))
    decreases Depth(ArrayV(es)), 0
  {
    var texts, items := ItemTexts(st, Dense(es)), ItemTrees(Dense(es));
    forall j | 0 <= j < Size(es) ensures ShownBy(src, doc, texts[j], 0, items[j]) {
      ElementPrintable(st, toDouble, es, j);
      TextIsShown(src, toDouble, doc, st, Dense(es)[j]);
    }
    ContainerText(st, es);
    ContainerTree(es);
    BracketedIsShown(src, doc, texts, Zeros(|items|), items);
  }

  lemma {:induction false} ObjectIsShown(src: Source, toDouble: bytes -> Option<real>, doc: bytes, st: Style,
                                         es: seq<Entry>)
    requires Tokenizes(src, toDouble, doc) && Printable(st, toDouble, ObjectV(es))
    ensures ShownBy(src, doc, Text(st, ObjectV(es)), 0, TreeOf(ObjectV(es)))
    decreases Depth(ObjectV(es)), 0
  {
    var texts, members := MemberTexts(st, es), MemberTrees(es);
    forall j | 0 <= j < |es| ensures MemberShownBy(src, doc, texts[j], 0, members[j]) {
      DepthOfEntry(es, j);
      TextIsShown(src, toDouble, doc, st, es[j].value);
      MemberTextIsShown(src, doc, st, es[j]);
    }
    ContainerText(st, es);
    ContainerTree(es);
    BracedIsShown(src, doc, texts, Zeros(|members|), members);
  }

  /** The printed text of a value, standing anywhere in a document, spells the tree of the value. */
  lemma {:induction false} TextIsShown(src: Source, toDouble: bytes -> Option<real>, doc: bytes, st: Style, v: Value)
    requires Tokenizes(src, toDouble, doc) && Printable(st, toDouble, v)
    ensures ShownBy(src, doc, Text(st, v), 0, TreeOf(v))
    decreases Depth(v), 1
  {
    if v.ArrayV? {
      ArrayIsShown(src, toDouble, doc, st, v.entries);
    } else if v.ObjectV? {
      ObjectIsShown(src, toDouble, doc, st, v.entries);
    } else {
      ScalarIsShown(src, toDouble, doc, st, v);
    }
  }

  // ---------- the theorem ----------

  lemma NormalContainer(v: Value)
    ensures Container(Normal(v)) <==> Container(v)
  {
  }

  lemma PrintedIsShown(src: Source, toDouble: bytes -> Option<real>, st: Style, v: Value, tail: bytes)
    requires Tokenizes(src, toDouble, Text(st, v) + tail) && Printable(st, toDouble, v)
    requires Delimited(Text(st, v) + tail, |Text(st, v)|)
    ensures Spells(src, 0, TreeOf(v), |Text(st, v)|)
  {
    TextIsShown(src, toDouble, Text(st, v) + tail, st, v);
    assert At(Text(st, v) + tail, 0, Text(st, v));
  }

  /** Printing and parsing, for every value whose doubles read back, under every option of the reader. */
  lemma RoundTrip(f: Features, toDouble: bytes -> Option<real>, st: Style, v: Value, was: Value, tail: bytes)
    requires Printable(st, toDouble, v) && Delimited(Text(st, v) + tail, |Text(st, v)|)
    ensures SourceOf(toDouble, Text(st, v) + tail).Forward()
    ensures var p := Parse(f, SourceOf(toDouble, Text(st, v) + tail), was);
            if Depth(v) > STACK_LIMIT then p == Threw(StackLimitExceeded)
            else p.Result? && p.root == Normal(v) && (p.ok <==> !f.strictRoot || Container(v))
  {
    var src := SourceOf(toDouble, Text(st, v) + tail);
    DocumentIsTokenized(toDouble, Text(st, v) + tail);
    PrintedIsShown(src, toDouble, st, v, tail);
    NestingIsDepth(v);
    NormalContainer(v);
    TreeIsParsed(f, src, TreeOf(v), was, 0, |Text(st, v)|);
  }
}
