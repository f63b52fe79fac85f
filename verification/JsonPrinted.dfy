/**
 What the printers print: texts of RFC 8259, in ASCII, with no blank but the one
 that may be behind a colon.
 */
module JsonPrinted {
  import opened Wrappers
  import opened Bytes
  import opened JsonStrings
  import opened JsonNumbers
  import opened JsonNumberTexts
  import opened JsonValue
  import opened JsonWriter
  import opened JsonNumberTokens
  import opened JsonRoundTrip
  import opened JsonEscapes
  import opened JsonDocuments

  /** The text has no blank but those given behind its colons, and nothing in its strings that has to be escaped. */
  ghost predicate Compact(space: bytes, n: Node)
    decreases n, 1
  {
    match n
    case NumberN(parts) => parts.Proper()
    case StringN(ps) => AllPrinted(ps)
    case ArrayN(items) => items != [] && forall i | 0 <= i < |items| :: CompactItem(space, [], items[i])
    case ObjectN(fields) => fields != [] && forall i | 0 <= i < |fields| :: CompactField(space, fields[i])
    case EmptyArrayN(blank) => blank == []
    case EmptyObjectN(blank) => blank == []
    case _ => true
  }

  ghost predicate CompactItem(space: bytes, before: bytes, it: Item)
    decreases it, 0
  {
    it.before == before && it.after == [] && Compact(space, it.node)
  }

  ghost predicate CompactField(space: bytes, fd: Field)
    decreases fd, 0
  {
    fd.before == [] && AllPrinted(fd.name) && fd.gap == [] && CompactItem(space, space, fd.value)
  }

  lemma ItemTextIs(before: bytes, n: Node)
    ensures ItemText(Item(before, n, [])) == before + NodeText(n)
  {
    assert NodeText(n) + [] == NodeText(n);
  }

  lemma FieldTextIs(name: seq<Piece>, space: bytes, n: Node)
    ensures FieldText(Field([], name, [], Item(space, n, []))) == StringText(name) + ([COLON] + (space + NodeText(n)))
  {
    ItemTextIs(space, n);
    var rest := [COLON] + (space + NodeText(n));
    assert [] + rest == rest && [] + (StringText(name) + rest) == StringText(name) + rest;
  }

  lemma StringIsJson(s: bytes) returns (ps: seq<Piece>)
    ensures StringText(ps) == Quote(s) && AllPrinted(ps)
  {
    ps := QuotedIsString(s);
  }

  lemma IntegerIsJson(i: int) returns (n: Parts)
    ensures n.Proper() && n.Text() == SignedDecimal(i)
  {
    IntegerIsNumber(i);
    n :| n.Proper() && n.Text() == SignedDecimal(i);
  }

  lemma RealIsJson(printed: bytes) returns (n: Parts)
    requires PrintedNumber(printed)
    ensures n.Proper() && n.Text() == RealText(printed)
  {
    RealTextIsNumber(printed);
    n :| n.Proper() && n.Text() == RealText(printed);
  }

  lemma ScalarIsJson(st: Style, toDouble: bytes -> Option<real>, v: Value) returns (n: Node)
    requires Printable(st, toDouble, v) && !Container(v)
    ensures NodeText(n) == Text(st, v) && Compact(st.colon[1..], n)
  {
    match v
    case NullV => n := NullN;
    case BoolV(b) => n := if b then TrueN else FalseN;
    case IntV(i) =>
      var parts := IntegerIsJson(i);
      n := NumberN(parts);
    case UIntV(u) =>
      var parts := IntegerIsJson(u);
      n := NumberN(parts);
    case RealV(r) =>
      var parts := RealIsJson(st.printReal(r));
      n := NumberN(parts);
    case StringV(s) =>
      var ps := StringIsJson(s);
      n := StringN(ps);
  }

  lemma {:induction false} ItemsAreJson(st: Style, toDouble: bytes -> Option<real>, vs: seq<Value>, d: nat)
    returns (items: seq<Item>)
    requires Standard(st) && forall j | 0 <= j < |vs| :: Printable(st, toDouble, vs[j]) && Depth(vs[j]) < d
    ensures |items| == |vs|
    ensures forall j | 0 <= j < |vs| :: ItemText(items[j]) == Text(st, vs[j]) && CompactItem(st.colon[1..], [], items[j])
    decreases d, 0, |vs|
  {
    if vs == [] {
      items := [];
    } else {
      var n := TextIsJson(st, toDouble, vs[0]);
      ItemTextIs([], n);
      assert [] + NodeText(n) == NodeText(n);
      var rest := ItemsAreJson(st, toDouble, vs[1..], d);
      items := [Item([], n, [])] + rest;
    }
  }

  lemma MemberTextIs(st: Style, e: Entry, name: seq<Piece>, n: Node)
    requires Standard(st) && StringText(name) == Quote(KeyBytes(e.key)) && NodeText(n) == Text(st, e.value)
    ensures FieldText(Field([], name, [], Item(st.colon[1..], n, []))) == MemberText(st, e)
  {
    FieldTextIs(name, st.colon[1..], n);
    Associative([COLON], st.colon[1..], NodeText(n));
    assert [COLON] + st.colon[1..] == st.colon;
    Associative(StringText(name), st.colon, NodeText(n));
  }

  lemma {:induction false} MembersAreJson(st: Style, toDouble: bytes -> Option<real>, es: seq<Entry>, d: nat)
    returns (fields: seq<Field>)
    requires Standard(st) && forall j | 0 <= j < |es| :: Printable(st, toDouble, es[j].value) && Depth(es[j].value) < d
    ensures |fields| == |es|
    ensures forall j | 0 <= j < |es| :: FieldText(fields[j]) == MemberText(st, es[j]) && CompactField(st.colon[1..], fields[j])
    decreases d, 0, |es|
  {
    if es == [] {
      fields := [];
    } else {
      var name := StringIsJson(KeyBytes(es[0].key));
      var n := TextIsJson(st, toDouble, es[0].value);
      MemberTextIs(st, es[0], name, n);
      var rest := MembersAreJson(st, toDouble, es[1..], d);
      fields := [Field([], name, [], Item(st.colon[1..], n, []))] + rest;
    }
  }

  lemma {:induction false} ArrayIsJson(st: Style, toDouble: bytes -> Option<real>, es: seq<Entry>) returns (n: Node)
    requires Printable(st, toDouble, ArrayV(es))
    ensures NodeText(n) == Text(st, ArrayV(es)) && Compact(st.colon[1..], n)
    decreases Depth(ArrayV(es)), 1
  {
    ContainerText(st, es);
    if Size(es) == 0 {
      n := EmptyArrayN([]);
    } else {
      forall j | 0 <= j < Size(es)
        ensures Printable(st, toDouble, Dense(es)[j]) && Depth(Dense(es)[j]) < Depth(ArrayV(es))
      {
        ElementPrintable(st, toDouble, es, j);
      }
      var items := ItemsAreJson(st, toDouble, Dense(es), Depth(ArrayV(es)));
      n := ArrayN(items);
      ItemsTextIs(items);
      assert ItemLines(items) == ItemTexts(st, Dense(es));
    }
  }

  lemma {:induction false} ObjectIsJson(st: Style, toDouble: bytes -> Option<real>, es: seq<Entry>) returns (n: Node)
    requires Printable(st, toDouble, ObjectV(es))
    ensures NodeText(n) == Text(st, ObjectV(es)) && Compact(st.colon[1..], n)
    decreases Depth(ObjectV(es)), 1
  {
    ContainerText(st, es);
    if es == [] {
      n := EmptyObjectN([]);
    } else {
      forall j | 0 <= j < |es|
        ensures Printable(st, toDouble, es[j].value) && Depth(es[j].value) < Depth(ObjectV(es))
      {
        DepthOfEntry(es, j);
      }
      var fields := MembersAreJson(st, toDouble, es, Depth(ObjectV(es)));
      n := ObjectN(fields);
      FieldsTextIs(fields);
      assert FieldLines(fields) == MemberTexts(st, es);
    }
  }

  /** Whatever is printed is a text of RFC 8259, and a compact one. */
  lemma {:induction false} TextIsJson(st: Style, toDouble: bytes -> Option<real>, v: Value) returns (n: Node)
    requires Printable(st, toDouble, v)
    ensures NodeText(n) == Text(st, v) && Compact(st.colon[1..], n)
    decreases Depth(v), 2
  {
    match v
    case ArrayV(es) => n := ArrayIsJson(st, toDouble, es);
    case ObjectV(es) => n := ObjectIsJson(st, toDouble, es);
    case _ => n := ScalarIsJson(st, toDouble, v);
  }
}
