/** Bytes, and the ASCII characters the JSON code names. */
module Bytes {
  type byte = b: int | 0 <= b < 256
  type bytes = seq<byte>

  const BACKSPACE: byte := 0x08
  const TAB: byte := 0x09
  const LINE_FEED: byte := 0x0A
  const FORM_FEED: byte := 0x0C
  const RETURN: byte := 0x0D
  const SPACE: byte := 0x20
  const QUOTE: byte := 0x22
  const STAR: byte := 0x2A
  const PLUS: byte := 0x2B
  const COMMA: byte := 0x2C
  const MINUS: byte := 0x2D
  const DOT: byte := 0x2E
  const SLASH: byte := 0x2F
  const ZERO: byte := 0x30
  const NINE: byte := 0x39
  const COLON: byte := 0x3A
  const LBRACKET: byte := 0x5B
  const BACKSLASH: byte := 0x5C
  const RBRACKET: byte := 0x5D
  const LBRACE: byte := 0x7B
  const RBRACE: byte := 0x7D

  /** The letters a to z. */
  const LETTER_A: byte := 0x61
  const LETTER_B: byte := 0x62
  const LETTER_E: byte := 0x65
  const LETTER_F: byte := 0x66
  const LETTER_L: byte := 0x6C
  const LETTER_N: byte := 0x6E
  const LETTER_R: byte := 0x72
  const LETTER_S: byte := 0x73
  const LETTER_T: byte := 0x74
  const LETTER_U: byte := 0x75
  const CAPITAL_A: byte := 0x41
  const CAPITAL_E: byte := 0x45
  const CAPITAL_F: byte := 0x46

  predicate IsDigit(c: byte) {
    ZERO <= c <= NINE
  }

  predicate IsSpace(c: byte) {
    c == SPACE || c == TAB || c == RETURN || c == LINE_FEED
  }

  /** The text occurs in the document at the position. */
  predicate At(doc: bytes, pos: nat, text: bytes) {
    pos + |text| <= |doc| && forall i | 0 <= i < |text| :: doc[pos + i] == text[i]
  }

  function Concat(pieces: seq<bytes>): bytes {
    if pieces == [] then [] else pieces[0] + Concat(pieces[1..])
  }

  lemma AtSplit(doc: bytes, pos: nat, a: bytes, b: bytes)
    ensures At(doc, pos, a + b) <==> At(doc, pos, a) && At(doc, pos + |a|, b)
  {
    if At(doc, pos, a + b) {
      forall i | 0 <= i < |a| ensures doc[pos + i] == a[i] { assert (a + b)[i] == a[i]; }
      forall i | 0 <= i < |b| ensures doc[pos + |a| + i] == b[i] { assert (a + b)[|a| + i] == b[i]; }
    }
    if At(doc, pos, a) && At(doc, pos + |a|, b) {
      forall i | 0 <= i < |a + b| ensures doc[pos + i] == (a + b)[i] {
        if i >= |a| { assert doc[pos + |a| + (i - |a|)] == b[i - |a|]; }
      }
    }
  }

  lemma AtFirst(doc: bytes, pos: nat, text: bytes)
    requires At(doc, pos, text) && text != []
    ensures pos < |doc| && doc[pos] == text[0]
  {
    assert doc[pos + 0] == text[0];
  }

  lemma AtSlice(doc: bytes, pos: nat, text: bytes)
    requires At(doc, pos, text)
    ensures doc[pos..pos + |text|] == text
  {
  }

  lemma Associative(a: bytes, b: bytes, c: bytes)
    ensures (a + b) + c == a + (b + c)
  {
  }
}
