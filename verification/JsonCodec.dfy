/** The printers and the reader together, as they run. */
module JsonCodec {
  import opened Wrappers
  import opened Bytes
  import opened JsonValue
  import opened JsonWriter
  import opened JsonNumberTokens
  import opened JsonGrammar
  import opened JsonRoundTrip
  import opened JsonReader

  /** What reading a printed value must come to. */
  ghost predicate ReadsBack(f: Features, v: Value, s: Status, root: Value) {
    if Depth(v) > STACK_LIMIT then s == Thrown(StackLimitExceeded)
    else s == Returned(!f.strictRoot || Container(v)) && root == Normal(v)
  }

  lemma LineFeedDelimits(text: bytes)
    ensures Delimited(text + [LINE_FEED], |text|) && Delimited(text + [], |text|)
  {
    assert text + [] == text;
  }

  /** A value through the fast writer and back through the reader. */
  method WriteFastAndParse(f: Features, toDouble: bytes -> Option<real>, style: Style, omitEndingLineFeed: bool,
                           v: Value, was: Value)
    returns (s: Status, root: Value)
    requires Printable(style, toDouble, v)
    ensures ReadsBack(f, v, s, root)
  {
    var writer := new FastWriter(style, omitEndingLineFeed);
    var text := writer.Write(v);
    var reader := new Reader(f, toDouble);
    s, root := reader.Parse(text, was);
    LineFeedDelimits(Text(style, v));
    RoundTrip(f, toDouble, style, v, was, if omitEndingLineFeed then [] else [LINE_FEED]);
  }

  /** A value through the styled stream writer, as the client prints its messages, and back through the reader. */
  method WriteStyledAndParse(f: Features, toDouble: bytes -> Option<real>, style: Style, cs: CommentStyle, v: Value,
                             was: Value)
    returns (s: Status, root: Value)
    requires Printable(style, toDouble, v)
    ensures ReadsBack(f, v, s, root)
  {
    var writer := new BuiltStyledStreamWriter(style, [], cs);
    var text := writer.Write(v);
    var reader := new Reader(f, toDouble);
    s, root := reader.Parse(text, was);
    LineFeedDelimits(Text(style, v));
    RoundTrip(f, toDouble, style, v, was, []);
    assert Text(style, v) + [] == Text(style, v);
  }
}
