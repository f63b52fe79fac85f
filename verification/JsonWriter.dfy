/**
 The two compact printers: the fast writer, and the styled stream writer with
 an empty indentation, which is how the client prints its messages.
 */
module JsonWriter {
  import opened Bytes
  import opened JsonStrings
  import opened JsonNumbers
  import opened JsonNumberTexts
  import opened JsonValue

  const NULL_TEXT: bytes := [LETTER_N, LETTER_U, LETTER_L, LETTER_L]
  const TRUE_TEXT: bytes := [LETTER_T, LETTER_R, LETTER_U, LETTER_E]
  const FALSE_TEXT: bytes := [LETTER_F, LETTER_A, LETTER_L, LETTER_S, LETTER_E]

  /** The symbols a printer is set up with; what the C library prints for a double is not modelled. */
  datatype Style = Style(colon: bytes, nullText: bytes, printReal: real -> bytes)

  // ---------- the text of a value ----------

  /** The texts with commas between them. */
  function Join(texts: seq<bytes>): bytes {
    if texts == [] then []
    else if |texts| == 1 then texts[0]
    else Join(texts[..|texts| - 1]) + ([COMMA] + texts[|texts| - 1])
  }

  /** One turn of a printing loop: output that begins with `start` grows by a comma, unless it is the first turn, and a text. */
  lemma JoinNext(start: bytes, output: bytes, texts: seq<bytes>, i: nat)
    requires i < |texts|
    requires output == if i > 0 then start + Join(texts[..i]) + [COMMA] else start + Join(texts[..i])
    ensures output + texts[i] == start + Join(texts[..i + 1])
  {
    assert texts[..i + 1][..i] == texts[..i];
    if i > 0 {
      assert Join(texts[..i + 1]) == Join(texts[..i]) + ([COMMA] + texts[i]);
    }
  }

  lemma InBrackets(start: bytes, open: bytes, inner: bytes, close: bytes)
    ensures start + open + inner + close == start + (open + inner + close)
  {
  }

  function KeyBytes(k: Key): bytes {
    if k.Name? then k.s else []
  }

  function Text(st: Style, v: Value): bytes
    decreases Depth(v)
  {
    match v
    case NullV => st.nullText
    case IntV(i) => SignedDecimal(i)
    case UIntV(u) => Decimal(u)
    case RealV(r) => RealText(st.printReal(r))
    case StringV(s) => Quote(s)
    case BoolV(b) => if b then TRUE_TEXT else FALSE_TEXT
    case ArrayV(es) =>
      [LBRACKET] + Join(seq(Size(es), i requires 0 <= i < Size(es) => DenseDepth(es, i); Text(st, Dense(es)[i]))) + [RBRACKET]
    case ObjectV(es) =>
      [LBRACE] + Join(seq(|es|, i requires 0 <= i < |es| => DepthOfEntry(es, i);
                                Quote(KeyBytes(es[i].key)) + st.colon + Text(st, es[i].value))) + [RBRACE]
  }

  function ItemTexts(st: Style, vs: seq<Value>): seq<bytes> {
    seq(|vs|, i requires 0 <= i < |vs| => Text(st, vs[i]))
  }

  function MemberText(st: Style, e: Entry): bytes {
    Quote(KeyBytes(e.key)) + st.colon + Text(st, e.value)
  }

  function MemberTexts(st: Style, es: seq<Entry>): seq<bytes> {
    seq(|es|, i requires 0 <= i < |es| => MemberText(st, es[i]))
  }

  lemma ContainerText(st: Style, es: seq<Entry>)
    ensures Text(st, ArrayV(es)) == [LBRACKET] + Join(ItemTexts(st, Dense(es))) + [RBRACKET]
    ensures Text(st, ObjectV(es)) == [LBRACE] + Join(MemberTexts(st, es)) + [RBRACE]
    ensures Size(es) == 0 ==> Text(st, ArrayV(es)) == [LBRACKET, RBRACKET]
    ensures es == [] ==> Text(st, ObjectV(es)) == [LBRACE, RBRACE]
  {
    assert Size(es) == 0 ==> ItemTexts(st, Dense(es)) == [];
    assert es == [] ==> MemberTexts(st, es) == [];
    assert ItemTexts(st, Dense(es)) == seq(Size(es), i requires 0 <= i < Size(es) => DenseDepth(es, i); Text(st, Dense(es)[i]));
    assert MemberTexts(st, es) == seq(|es|, i requires 0 <= i < |es| => DepthOfEntry(es, i);
                                           Quote(KeyBytes(es[i].key)) + st.colon + Text(st, es[i].value));
  }

  // ---------- class FastWriter ----------

  class FastWriter {
    const style: Style
    const omitEndingLineFeed: bool
    var document: bytes

    constructor (style: Style, omitEndingLineFeed: bool)
      ensures this.style == style && this.omitEndingLineFeed == omitEndingLineFeed
    {
      this.style := style;
      this.omitEndingLineFeed := omitEndingLineFeed;
      document := [];
    }

    method Write(root: Value) returns (text: bytes)
      requires Valid(root)
      modifies this
      ensures text == Text(style, root) + (if omitEndingLineFeed then [] else [LINE_FEED])
    {
      document := [];
      WriteValue(root);
      if !omitEndingLineFeed {
        document := document + [LINE_FEED];
      }
      text := document;
    }

    method WriteValue(value: Value)
      requires Valid(value)
      modifies this
      decreases Depth(value), 2
      ensures document == old(document) + Text(style, value)
    {
      match value
      case NullV =>
        document := document + style.nullText;
      case IntV(i) =>
        var text := ValueToString(i);
        document := document + text;
      case UIntV(u) =>
        var text := UnsignedToString(u);
        document := document + text;
      case RealV(r) =>
        var text := RealToString(style.printReal(r));
        document := document + text;
      case StringV(s) =>
        var text := ValueToQuotedStringN(s);
        document := document + text;
      case BoolV(b) =>
        document := document + if b then TRUE_TEXT else FALSE_TEXT;
      case ArrayV(es) =>
        WriteArrayValue(es);
      case ObjectV(es) =>
        WriteObjectValue(es);
    }

    method WriteArrayValue(es: seq<Entry>)
      requires Valid(ArrayV(es))
      modifies this
      decreases Depth(ArrayV(es)), 1
      ensures document == old(document) + Text(style, ArrayV(es))
    {
      ContainerText(style, es);
      InBrackets(document, [LBRACKET], Join(ItemTexts(style, Dense(es))), [RBRACKET]);
      document := document + [LBRACKET];
      WriteItems(es);
      document := document + [RBRACKET];
    }

    method WriteObjectValue(es: seq<Entry>)
      requires Valid(ObjectV(es))
      modifies this
      decreases Depth(ObjectV(es)), 1
      ensures document == old(document) + Text(style, ObjectV(es))
    {
      ContainerText(style, es);
      InBrackets(document, [LBRACE], Join(MemberTexts(style, es)), [RBRACE]);
      document := document + [LBRACE];
      WriteMembers(es);
      document := document + [RBRACE];
    }

    /** The loop over the elements of an array. */
    method WriteItems(es: seq<Entry>)
      requires Valid(ArrayV(es))
      modifies this
      decreases Depth(ArrayV(es)), 0
      ensures document == old(document) + Join(ItemTexts(style, Dense(es)))
    {
      var size := Size(es);
      for index := 0 to size
        invariant document == old(document) + Join(ItemTexts(style, Dense(es))[..index])
      {
        if index > 0 {
          document := document + [COMMA];
        }
        JoinNext(old(document), document, ItemTexts(style, Dense(es)), index);
        DenseDepth(es, index);
        DenseValid(es, index);
        WriteValue(Get(es, Index(index)));
      }
      assert ItemTexts(style, Dense(es))[..size] == ItemTexts(style, Dense(es));
    }

    /** The loop over the members of an object. */
    method WriteMembers(es: seq<Entry>)
      requires Valid(ObjectV(es))
      modifies this
      decreases Depth(ObjectV(es)), 0
      ensures document == old(document) + Join(MemberTexts(style, es))
    {
      ghost var texts := MemberTexts(style, es);
      for it := 0 to |es|
        invariant document == old(document) + Join(texts[..it])
      {
        if it != 0 {
          document := document + [COMMA];
        }
        JoinNext(old(document), document, texts, it);
        MemberValid(es, it);
        WriteMember(es[it]);
      }
      assert texts[..|es|] == texts;
    }

    /** One member: its name, the colon, its value. */
    method WriteMember(e: Entry)
      requires e.key.Name? && Valid(e.value)
      modifies this
      decreases Depth(e.value), 3
      ensures document == old(document) + MemberText(style, e)
    {
      var name := ValueToQuotedStringN(e.key.s);
      document := document + name;
      document := document + style.colon;
      WriteValue(e.value);
    }
  }

  lemma ItemAt(st: Style, es: seq<Entry>, index: nat)
    requires Valid(ArrayV(es)) && index < Size(es)
    ensures var v := Get(es, Index(index));
            Valid(v) && Depth(v) < Depth(ArrayV(es)) && ItemTexts(st, Dense(es))[index] == Text(st, v)
  {
    DenseDepth(es, index);
    DenseValid(es, index);
  }

  // ---------- struct BuiltStyledStreamWriter, without comments ----------

  datatype CommentStyle = NoComments | AllComments

  /** A scalar or an empty container: what may be collected for a single-line array. */
  predicate Flat(v: Value) {
    (v.ArrayV? ==> Size(v.entries) == 0) && (v.ObjectV? ==> v.entries == [])
  }

  /** The collected texts of the elements of an array. */
  predicate Collected(st: Style, es: seq<Entry>, childValues: seq<bytes>) {
    childValues == ItemTexts(st, Dense(es))
  }

  class BuiltStyledStreamWriter {
    const style: Style
    const indentation: bytes
    const cs: CommentStyle
    const rightMargin: nat := 74
    var sout: bytes
    var childValues: seq<bytes>
    var indentString: bytes
    var addChildValues: bool
    var indented: bool

    constructor (style: Style, indentation: bytes, cs: CommentStyle)
      ensures this.style == style && this.indentation == indentation && this.cs == cs
      ensures indentation == [] ==> Ready()
    {
      this.style := style;
      this.indentation := indentation;
      this.cs := cs;
      sout := [];
      childValues := [];
      indentString := [];
      addChildValues := false;
      indented := false;
    }

    /** With all comments kept no child values are ever collected; here nothing is ever indented. */
    ghost predicate Ready()
      reads this
    {
      indentation == [] && indentString == [] && (cs == AllComments ==> childValues == [])
    }

    method Write(root: Value) returns (text: bytes)
      requires Valid(root) && Ready()
      modifies this
      ensures Ready() && text == Text(style, root)
    {
      sout := [];
      addChildValues := false;
      indented := true;
      indentString := [];
      WriteValue(root);
      text := sout;
    }

    method PushValue(value: bytes)
      modifies this
      ensures unchanged(`indentString) && unchanged(`addChildValues) && unchanged(`indented)
      ensures if addChildValues then sout == old(sout) && childValues == old(childValues) + [value]
              else sout == old(sout) + value && childValues == old(childValues)
    {
      if addChildValues {
        childValues := childValues + [value];
      } else {
        sout := sout + value;
      }
    }

    method WriteIndent()
      modifies `sout
      ensures sout == old(sout) + if indentation == [] then [] else [LINE_FEED] + indentString
    {
      if indentation != [] {
        sout := sout + ([LINE_FEED] + indentString);
      }
    }

    method WriteWithIndent(value: bytes)
      requires Ready()
      modifies this
      ensures sout == old(sout) + value && unchanged(`childValues) && unchanged(`indentString) && unchanged(`addChildValues)
    {
      if !indented {
        WriteIndent();
      }
      sout := sout + value;
      indented := false;
    }

    method Indent()
      requires Ready()
      modifies `indentString
      ensures Ready()
    {
      indentString := indentString + indentation;
    }

    method Unindent()
      requires Ready()
      modifies `indentString
      ensures Ready()
    {
      indentString := indentString[..|indentString| - |indentation|];
    }

    method WriteValue(value: Value)
      requires Valid(value) && Ready()
      requires addChildValues ==> cs == NoComments && Flat(value)
      modifies this
      decreases Depth(value), 2
      ensures Ready() && unchanged(`addChildValues)
      ensures old(addChildValues) ==> sout == old(sout) && childValues == old(childValues) + [Text(style, value)]
      ensures !old(addChildValues) ==> sout == old(sout) + Text(style, value)
    {
      match value
      case NullV =>
        PushValue(style.nullText);
      case IntV(i) =>
        var text := ValueToString(i);
        PushValue(text);
      case UIntV(u) =>
        var text := UnsignedToString(u);
        PushValue(text);
      case RealV(r) =>
        var text := RealToString(style.printReal(r));
        PushValue(text);
      case StringV(s) =>
        var text := ValueToQuotedStringN(s);
        PushValue(text);
      case BoolV(b) =>
        PushValue(if b then TRUE_TEXT else FALSE_TEXT);
      case ArrayV(es) =>
        WriteArrayValue(es);
      case ObjectV(es) =>
        WriteObjectValue(es);
    }

    /** The object case. */
    method WriteObjectValue(es: seq<Entry>)
      requires Valid(ObjectV(es)) && Ready()
      requires addChildValues ==> cs == NoComments && es == []
      modifies this
      decreases Depth(ObjectV(es)), 1, 1
      ensures Ready() && unchanged(`addChildValues)
      ensures old(addChildValues) ==> sout == old(sout) && childValues == old(childValues) + [Text(style, ObjectV(es))]
      ensures !old(addChildValues) ==> sout == old(sout) + Text(style, ObjectV(es))
    {
      ContainerText(style, es);
      if es == [] {
        PushValue([LBRACE, RBRACE]);
      } else {
        WriteMembersInBraces(es);
      }
    }

    method WriteMembersInBraces(es: seq<Entry>)
      requires Valid(ObjectV(es)) && Ready() && !addChildValues
      modifies this
      decreases Depth(ObjectV(es)), 1, 0, 1
      ensures Ready() && !addChildValues
      ensures sout == old(sout) + ([LBRACE] + Join(MemberTexts(style, es)) + [RBRACE])
    {
      InBrackets(sout, [LBRACE], Join(MemberTexts(style, es)), [RBRACE]);
      WriteWithIndent([LBRACE]);
      Indent();
      WriteMembers(es);
      Unindent();
      WriteWithIndent([RBRACE]);
    }

    /** The loop over the members of a non-empty object. */
    method WriteMembers(es: seq<Entry>)
      requires Valid(ObjectV(es)) && Ready() && !addChildValues
      modifies this
      decreases Depth(ObjectV(es)), 1, 0, 0
      ensures Ready() && !addChildValues
      ensures sout == old(sout) + Join(MemberTexts(style, es))
    {
      ghost var texts := MemberTexts(style, es);
      for it := 0 to |es|
        invariant Ready() && !addChildValues
        invariant sout == old(sout) + Join(texts[..it])
      {
        WriteNextMember(es, it, old(sout), texts);
      }
      assert texts[..|es|] == texts;
    }

    /** One turn of that loop. */
    method WriteNextMember(es: seq<Entry>, it: nat, ghost start: bytes, ghost texts: seq<bytes>)
      requires Valid(ObjectV(es)) && it < |es| && Ready() && !addChildValues
      requires |texts| == |es| && texts[it] == MemberText(style, es[it]) && sout == start + Join(texts[..it])
      modifies this
      decreases Depth(ObjectV(es)), 0
      ensures Ready() && !addChildValues
      ensures sout == start + Join(texts[..it + 1])
    {
      if it > 0 {
        sout := sout + [COMMA];
      }
      JoinNext(start, sout, texts, it);
      MemberValid(es, it);
      WriteMember(es[it]);
    }

    method WriteMember(e: Entry)
      requires e.key.Name? && Valid(e.value) && Ready() && !addChildValues
      modifies this
      decreases Depth(e.value), 3
      ensures Ready() && !addChildValues
      ensures sout == old(sout) + MemberText(style, e)
    {
      var name := ValueToQuotedStringN(e.key.s);
      WriteWithIndent(name);
      sout := sout + style.colon;
      WriteValue(e.value);
    }

    method WriteArrayValue(es: seq<Entry>)
      requires Valid(ArrayV(es)) && Ready()
      requires addChildValues ==> cs == NoComments && Flat(ArrayV(es))
      modifies this
      decreases Depth(ArrayV(es)), 1
      ensures Ready() && unchanged(`addChildValues)
      ensures old(addChildValues) ==> sout == old(sout) && childValues == old(childValues) + [Text(style, ArrayV(es))]
      ensures !old(addChildValues) ==> sout == old(sout) + Text(style, ArrayV(es))
    {
      ContainerText(style, es);
      if Size(es) == 0 {
        PushValue([LBRACKET, RBRACKET]);
      } else {
        WriteElements(es);
      }
    }

    /** The rest of writeArrayValue, for an array that is not empty. */
    method WriteElements(es: seq<Entry>)
      requires Valid(ArrayV(es)) && Ready() && !addChildValues && Size(es) > 0
      modifies this
      decreases Depth(ArrayV(es)), 0, 3
      ensures Ready() && !addChildValues
      ensures sout == old(sout) + ([LBRACKET] + Join(ItemTexts(style, Dense(es))) + [RBRACKET])
    {
      var isMultiLine := cs == AllComments;
      InBrackets(sout, [LBRACKET], Join(ItemTexts(style, Dense(es))), [RBRACKET]);
      if !isMultiLine {
        isMultiLine := IsMultilineArray(es);
      }
      if isMultiLine {
        WriteWithIndent([LBRACKET]);
        Indent();
        WriteItems(es);
        Unindent();
        WriteWithIndent([RBRACKET]);
      } else {
        sout := sout + [LBRACKET];
        WriteChildValues(es);
        sout := sout + [RBRACKET];
      }
    }

    /** The element loop of the multi-line layout. */
    method WriteItems(es: seq<Entry>)
      requires Valid(ArrayV(es)) && Ready() && !addChildValues
      requires childValues == [] || Collected(style, es, childValues)
      modifies this
      decreases Depth(ArrayV(es)), 0, 1
      ensures Ready() && !addChildValues
      ensures sout == old(sout) + Join(ItemTexts(style, Dense(es)))
    {
      var hasChildValue := childValues != [];
      for index := 0 to Size(es)
        invariant Ready() && !addChildValues
        invariant hasChildValue ==> Collected(style, es, childValues)
        invariant sout == old(sout) + Join(ItemTexts(style, Dense(es))[..index])
      {
        if index > 0 {
          sout := sout + [COMMA];
        }
        JoinNext(old(sout), sout, ItemTexts(style, Dense(es)), index);
        WriteItem(es, index, hasChildValue);
      }
      assert ItemTexts(style, Dense(es))[..Size(es)] == ItemTexts(style, Dense(es));
    }

    method WriteItem(es: seq<Entry>, index: nat, hasChildValue: bool)
      requires Valid(ArrayV(es)) && index < Size(es) && Ready() && !addChildValues
      requires hasChildValue ==> Collected(style, es, childValues)
      modifies this
      decreases Depth(ArrayV(es)), 0, 0
      ensures Ready() && !addChildValues && (hasChildValue ==> childValues == old(childValues))
      ensures sout == old(sout) + ItemTexts(style, Dense(es))[index]
    {
      ItemAt(style, es, index);
      if hasChildValue {
        WriteWithIndent(childValues[index]);
      } else {
        if !indented {
          WriteIndent();
        }
        indented := true;
        WriteValue(Get(es, Index(index)));
        indented := false;
      }
    }

    /** The element loop of the single-line layout. */
    method WriteChildValues(es: seq<Entry>)
      requires Collected(style, es, childValues)
      modifies `sout
      ensures sout == old(sout) + Join(ItemTexts(style, Dense(es)))
    {
      for index := 0 to Size(es)
        invariant sout == old(sout) + Join(ItemTexts(style, Dense(es))[..index])
      {
        if index > 0 {
          sout := sout + [COMMA];
        }
        JoinNext(old(sout), sout, ItemTexts(style, Dense(es)), index);
        sout := sout + childValues[index];
      }
      assert ItemTexts(style, Dense(es))[..Size(es)] == ItemTexts(style, Dense(es));
    }

    /** Decide the layout of an array; on the way its element texts may be collected. */
    method IsMultilineArray(es: seq<Entry>) returns (isMultiLine: bool)
      requires Valid(ArrayV(es)) && Ready() && cs == NoComments && Size(es) > 0 && !addChildValues
      modifies this
      decreases Depth(ArrayV(es)), 0, 2
      ensures Ready() && !addChildValues && sout == old(sout)
      ensures childValues == [] || Collected(style, es, childValues)
      ensures !isMultiLine ==> Collected(style, es, childValues)
    {
      var size := Size(es);
      isMultiLine := size * 3 >= rightMargin;
      childValues := [];
      var index := 0;
      while index < size && !isMultiLine
        invariant 0 <= index <= size
        invariant !isMultiLine ==> forall i | 0 <= i < index :: Flat(Dense(es)[i])
      {
        var childValue := Get(es, Index(index));
        isMultiLine := Container(childValue)
                       && (if childValue.ArrayV? then Size(childValue.entries) else |childValue.entries|) > 0;
        index := index + 1;
      }
      if !isMultiLine {
        addChildValues := true;
        var lineLength := 4 + (size - 1) * 2;
        for index := 0 to size
          invariant Ready() && addChildValues && sout == old(sout)
          invariant childValues == ItemTexts(style, Dense(es))[..index]
        {
          DenseDepth(es, index);
          DenseValid(es, index);
          WriteValue(Get(es, Index(index)));
          lineLength := lineLength + |childValues[index]|;
        }
        addChildValues := false;
        assert ItemTexts(style, Dense(es))[..size] == ItemTexts(style, Dense(es));
        isMultiLine := lineLength >= rightMargin;
      }
    }
  }

  /** Both printers, set up with the same symbols, emit the same text, under either comment style. */
  method PrintBothWays(style: Style, cs: CommentStyle, v: Value) returns (fast: bytes, built: bytes)
    requires Valid(v)
    ensures fast == built + [LINE_FEED]
  {
    var fastWriter := new FastWriter(style, false);
    fast := fastWriter.Write(v);
    var builtWriter := new BuiltStyledStreamWriter(style, [], cs);
    built := builtWriter.Write(v);
  }
}
