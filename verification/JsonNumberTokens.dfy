/**
 What the reader takes for a number: exactly which text, and for the numbers of
 RFC 8259 the whole text and nothing more.
 */
module JsonNumberTokens {
  import opened Wrappers
  import opened Bytes
  import opened JsonNumbers
  import opened JsonNumberTexts
  import opened JsonValue
  import opened JsonLexer

  // ---------- the text of a number token ----------

  predicate LooseFraction(s: bytes) {
    s == [] || (s[0] == 0x2E && Digits(s[1..]))
  }

  predicate LooseExponent(s: bytes) {
    s == [] || ((s[0] == 0x65 || s[0] == 0x45)
                && (Digits(s[1..]) || (|s| >= 2 && (s[1] == 0x2B || s[1] == 0x2D) && Digits(s[2..]))))
  }

  /** A text the reader takes for a number: a digit or minus sign, digits, and no demand that more than that be there. */
  datatype Loose = Loose(first: byte, digits: bytes, fraction: bytes, exponent: bytes) {

    predicate Scanned() {
      (first == 0x2D || 0x30 <= first <= 0x39) && Digits(digits) && LooseFraction(fraction) && LooseExponent(exponent)
    }

    function Text(): bytes {
      [first] + digits + fraction + exponent
    }

    /** The characters that would go on with it. */
    predicate GoesOn(c: byte) {
      || 0x30 <= c <= 0x39
      || (c == 0x2E && fraction == [] && exponent == [])
      || ((c == 0x65 || c == 0x45) && exponent == [])
      || ((c == 0x2B || c == 0x2D) && |exponent| == 1)
    }

    /** It stands in the document at a position, and ends there. */
    predicate StandsAt(doc: bytes, pos: nat) {
      var end := pos + |Text()|;
      Scanned() && At(doc, pos, Text()) && (end < |doc| ==> !GoesOn(doc[end]))
    }
  }

  lemma {:induction false} DigitsEndBehind(doc: bytes, pos: nat, t: bytes)
    requires At(doc, pos, t) && Digits(t) && (pos + |t| < |doc| ==> !IsDigit(doc[pos + |t|]))
    ensures DigitsEnd(doc, pos) == pos + |t|
    decreases |t|
  {
    if t != [] {
      AtFirst(doc, pos, t);
      AtSplit(doc, pos, [t[0]], t[1..]);
      assert [t[0]] + t[1..] == t;
      DigitsEndBehind(doc, pos + 1, t[1..]);
    }
  }

  lemma FractionBehind(doc: bytes, pos: nat, t: bytes)
    requires At(doc, pos, t) && LooseFraction(t)
    requires pos + |t| < |doc| ==> !IsDigit(doc[pos + |t|]) && (t == [] ==> doc[pos + |t|] != DOT)
    ensures FractionEnd(doc, pos) == pos + |t|
  {
    if t != [] {
      AtSplit(doc, pos, [t[0]], t[1..]);
      AtFirst(doc, pos, t);
      assert [t[0]] + t[1..] == t;
      DigitsEndBehind(doc, pos + 1, t[1..]);
    }
  }

  lemma ExponentBehind(doc: bytes, pos: nat, t: bytes)
    requires At(doc, pos, t) && LooseExponent(t)
    requires pos + |t| < |doc| ==>
               var c := doc[pos + |t|];
               !IsDigit(c) && (t == [] ==> c != LETTER_E && c != CAPITAL_E) && (|t| == 1 ==> c != PLUS && c != MINUS)
    ensures ExponentEnd(doc, pos) == pos + |t|
  {
    if t != [] {
      AtFirst(doc, pos, t);
      if |t| >= 2 { assert doc[pos + 1] == t[1]; }
      var k := if |t| >= 2 && (t[1] == PLUS || t[1] == MINUS) then 2 else 1;
      AtSplit(doc, pos, t[..k], t[k..]);
      assert t[..k] + t[k..] == t;
      DigitsEndBehind(doc, pos + k, t[k..]);
    }
  }

  /** The parts of a number that stand in the document one behind the other. */
  lemma PartsHere(doc: bytes, pos: nat, n: Loose) returns (p: nat, q: nat)
    requires At(doc, pos, n.Text())
    ensures p == pos + 1 + |n.digits| && q == p + |n.fraction| && q + |n.exponent| == pos + |n.Text()|
    ensures pos < |doc| && doc[pos] == n.first
    ensures At(doc, pos + 1, n.digits) && At(doc, p, n.fraction) && At(doc, q, n.exponent)
  {
    p, q := pos + 1 + |n.digits|, pos + 1 + |n.digits| + |n.fraction|;
    AtSplit(doc, pos, [n.first] + n.digits + n.fraction, n.exponent);
    AtSplit(doc, pos, [n.first] + n.digits, n.fraction);
    AtSplit(doc, pos, [n.first], n.digits);
    AtFirst(doc, pos, [n.first]);
  }

  lemma EndsHere(doc: bytes, pos: nat, n: Loose)
    requires n.StandsAt(doc, pos)
    ensures pos < |doc| && doc[pos] == n.first && NumberEnd(doc, pos + 1) == pos + |n.Text()|
  {
    var p, q := PartsHere(doc, pos, n);
    if n.fraction != [] { AtFirst(doc, p, n.fraction); }
    if n.exponent != [] { AtFirst(doc, q, n.exponent); }
    DigitsEndBehind(doc, pos + 1, n.digits);
    FractionBehind(doc, p, n.fraction);
    ExponentBehind(doc, q, n.exponent);
  }

  lemma {:induction false} DigitsScanned(doc: bytes, pos: nat)
    requires pos <= |doc|
    ensures var end := DigitsEnd(doc, pos);
            Digits(doc[pos..end]) && (end < |doc| ==> !IsDigit(doc[end]))
    decreases |doc| - pos
  {
    if pos < |doc| && IsDigit(doc[pos]) {
      DigitsScanned(doc, pos + 1);
      var end := DigitsEnd(doc, pos);
      assert doc[pos..end] == [doc[pos]] + doc[pos + 1..end];
    }
  }

  lemma FractionScanned(doc: bytes, pos: nat)
    requires pos <= |doc|
    ensures var end := FractionEnd(doc, pos);
            && LooseFraction(doc[pos..end])
            && (end < |doc| && pos < end ==> !IsDigit(doc[end]))
            && (end < |doc| && pos == end ==> doc[end] != DOT)
  {
    if pos < |doc| && doc[pos] == DOT {
      DigitsScanned(doc, pos + 1);
      var end := FractionEnd(doc, pos);
      assert doc[pos..end][1..] == doc[pos + 1..end];
    }
  }

  lemma ExponentScanned(doc: bytes, pos: nat)
    requires pos <= |doc|
    ensures var end := ExponentEnd(doc, pos);
            && LooseExponent(doc[pos..end])
            && (end < |doc| && pos < end ==> !IsDigit(doc[end]))
            && (end < |doc| && pos == end ==> doc[end] != LETTER_E && doc[end] != CAPITAL_E)
            && (end < |doc| && end == pos + 1 ==> doc[end] != PLUS && doc[end] != MINUS)
  {
    var end := ExponentEnd(doc, pos);
    if pos < end {
      var k := if pos + 1 < |doc| && (doc[pos + 1] == PLUS || doc[pos + 1] == MINUS) then 2 else 1;
      DigitsScanned(doc, pos + k);
      assert doc[pos..end][k..] == doc[pos + k..end];
    }
  }

  lemma Slices(doc: bytes, pos: nat, p: nat, q: nat, end: nat)
    requires pos < p <= q <= end <= |doc|
    ensures [doc[pos]] + doc[pos + 1..p] + doc[p..q] + doc[q..end] == doc[pos..end]
  {
    assert [doc[pos]] + doc[pos + 1..p] == doc[pos..p];
    assert doc[pos..p] + doc[p..q] == doc[pos..q];
    assert doc[pos..q] + doc[q..end] == doc[pos..end];
  }

  /** Parts that end at p, q and end, each of them where it cannot go on. */
  lemma Assembled(doc: bytes, pos: nat, p: nat, q: nat, end: nat) returns (n: Loose)
    requires pos < p <= q <= end <= |doc| && (IsDigit(doc[pos]) || doc[pos] == MINUS)
    requires Digits(doc[pos + 1..p]) && LooseFraction(doc[p..q]) && LooseExponent(doc[q..end])
    requires end < |doc| ==> !IsDigit(doc[end])
    requires end < |doc| && p == end ==> doc[end] != DOT
    requires end < |doc| && q == end ==> doc[end] != LETTER_E && doc[end] != CAPITAL_E
    requires end < |doc| && q + 1 == end ==> doc[end] != PLUS && doc[end] != MINUS
    ensures n.StandsAt(doc, pos) && end == pos + |n.Text()|
  {
    n := Loose(doc[pos], doc[pos + 1..p], doc[p..q], doc[q..end]);
    Slices(doc, pos, p, q, end);
  }

  /** The parts scanned from behind a first character. */
  lemma NumberScanned(doc: bytes, pos: nat) returns (n: Loose)
    requires pos < |doc| && (IsDigit(doc[pos]) || doc[pos] == MINUS)
    ensures n.StandsAt(doc, pos) && NumberEnd(doc, pos + 1) == pos + |n.Text()|
  {
    var p := DigitsEnd(doc, pos + 1);
    var q := FractionEnd(doc, p);
    var end := ExponentEnd(doc, q);
    DigitsScanned(doc, pos + 1);
    FractionScanned(doc, p);
    ExponentScanned(doc, q);
    n := Assembled(doc, pos, p, q, end);
  }

  /** A number token begins at a position exactly when such a text stands there, and then ends where it ends. */
  lemma NumberTokens(doc: bytes, pos: nat, end: nat)
    requires pos < |doc|
    ensures TokenAt(doc, pos) == Token(NumberToken, pos, end)
            <==> exists n: Loose :: n.StandsAt(doc, pos) && end == pos + |n.Text()|
  {
    forall n: Loose | n.StandsAt(doc, pos) ensures NumberEnd(doc, pos + 1) == pos + |n.Text()| && doc[pos] == n.first {
      EndsHere(doc, pos, n);
    }
    if IsDigit(doc[pos]) || doc[pos] == MINUS {
      var n := NumberScanned(doc, pos);
    }
  }

  // ---------- the numbers of RFC 8259 ----------

  /** Nothing that could belong to a number follows. */
  predicate Delimited(doc: bytes, pos: nat) {
    pos < |doc| ==> !IsDigit(doc[pos]) && doc[pos] !in {DOT, LETTER_E, CAPITAL_E}
  }

  /** A proper number is one the reader takes. */
  function Loosened(n: Parts): (l: Loose)
    requires n.Proper()
    ensures l.Scanned() && l.Text() == n.Text() && |l.exponent| != 1
  {
    var l := if n.minus then Loose(0x2D, n.whole, n.frac, n.exp) else Loose(n.whole[0], n.whole[1..], n.frac, n.exp);
    assert n.whole == [n.whole[0]] + n.whole[1..];
    assert l.Text() == n.Text();
    l
  }

  /** A number is one token, wherever it stands. */
  lemma NumberHere(doc: bytes, pos: nat, text: bytes)
    requires IsNumber(text) && At(doc, pos, text) && Delimited(doc, pos + |text|)
    ensures pos < |doc| && !IsSpace(doc[pos]) && TokenAt(doc, pos) == Token(NumberToken, pos, pos + |text|)
  {
    var n: Parts :| n.Proper() && n.Text() == text;
    EndsHere(doc, pos, Loosened(n));
  }

  /** What a number denotes: an integer if it is one in range, and else what the conversion makes of its text. */
  function Denoted(toDouble: bytes -> Option<real>, n: Parts): Option<Value>
    requires n.Proper()
  {
    DigitsAreDigits(n.whole);
    var magnitude := Numeral(n.whole);
    if n.Whole() && n.minus && magnitude <= 0x8000_0000_0000_0000 then Some(IntV(-(magnitude as int)))
    else if n.Whole() && !n.minus && magnitude <= 0x7FFF_FFFF then Some(IntV(magnitude))
    else if n.Whole() && !n.minus && magnitude <= 0xFFFF_FFFF_FFFF_FFFF then Some(UIntV(magnitude))
    else match toDouble(n.Text()) { case Some(r) => Some(RealV(r)) case None => None }
  }

  lemma NumberDenotes(toDouble: bytes -> Option<real>, n: Parts)
    requires n.Proper() && n.Text() != []
    ensures DecodeNumberText(toDouble, n.Text()) == Denoted(toDouble, n)
  {
    ProperInteger(n);
  }

  /** Every printed integer is a number, with no digit to spare. */
  lemma {:induction false} DecimalIsInt(i: nat)
    ensures IsInt(Decimal(i)) && (i > 0 ==> Decimal(i)[0] != ZERO)
  {
    if i >= 10 {
      DecimalIsInt(i / 10);
    }
  }

  lemma IntegerIsNumber(i: int)
    ensures IsNumber(SignedDecimal(i))
  {
    var n: nat := if i < 0 then -i else i;
    DecimalIsInt(n);
    var parts := Parts(i < 0, Decimal(n), [], []);
    assert parts.Text() == SignedDecimal(i);
  }
}
