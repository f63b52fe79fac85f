/**
 The numbers of RFC 8259, section 6, by their own grammar, and the text the
 library makes of what the C library prints for a double.
 */
module JsonNumberTexts {
  import opened Wrappers
  import opened Bytes
  import opened JsonNumbers

  // ---------- numbers ----------

  predicate Digits(s: bytes) {
    forall i | 0 <= i < |s| :: 0x30 <= s[i] <= 0x39
  }

  /** int: a zero, or digits that do not begin with one. */
  predicate IsInt(s: bytes) {
    s == [0x30] || (s != [] && Digits(s) && s[0] != 0x30)
  }

  /** frac: a point and at least one digit. */
  predicate IsFrac(s: bytes) {
    |s| >= 2 && s[0] == 0x2E && Digits(s[1..])
  }

  /** exp: an E of either case, perhaps a sign of either kind, and at least one digit. */
  predicate IsExp(s: bytes) {
    && |s| >= 2 && (s[0] == 0x65 || s[0] == 0x45)
    && (Digits(s[1..]) || (|s| >= 3 && (s[1] == 0x2B || s[1] == 0x2D) && Digits(s[2..])))
  }

  datatype Parts = Parts(minus: bool, whole: bytes, frac: bytes, exp: bytes) {

    /** number = [ minus ] int [ frac ] [ exp ] */
    predicate Proper() {
      IsInt(whole) && (frac == [] || IsFrac(frac)) && (exp == [] || IsExp(exp))
    }

    function Text(): bytes {
      (if minus then [0x2D] else []) + whole + frac + exp
    }

    predicate Whole() {
      frac == [] && exp == []
    }
  }

  ghost predicate IsNumber(text: bytes) {
    exists n: Parts :: n.Proper() && n.Text() == text
  }

  lemma DigitsAreDigits(s: bytes)
    ensures Digits(s) <==> AllDigits(s)
  {
    if AllDigits(s) { forall i | 0 <= i < |s| ensures 0x30 <= s[i] <= 0x39 { assert s[i] in s; } }
  }

  /** A text with a point or an E is not taken for an integer. */
  lemma NotAnInteger(text: bytes, i: nat)
    requires i < |text| && text[i] in {DOT, LETTER_E, CAPITAL_E}
    ensures DecodeInteger(text) == None
  {
    var body := Body(text);
    var k := i + |body| - |text|;
    assert body[k] == text[i] && body[k] in body;
  }

  /** A fraction shows by its point, an exponent by its E. */
  lemma PartsShow(n: Parts)
    requires n.Proper()
    ensures n.frac != [] ==> DOT in n.Text()
    ensures n.exp != [] ==> LETTER_E in n.Text() || CAPITAL_E in n.Text()
  {
    var front := (if n.minus then [0x2D] else []) + n.whole;
    if n.frac != [] { assert n.Text()[|front|] == n.frac[0]; }
    if n.exp != [] { assert n.Text()[|front| + |n.frac|] == n.exp[0]; }
  }

  /** A proper number is taken for an integer exactly when it has no fraction, no exponent and fits. */
  lemma ProperInteger(n: Parts)
    requires n.Proper() && n.Text() != []
    ensures Digits(n.whole) && AllDigits(n.whole)
    ensures DecodeInteger(n.Text())
            == if !n.Whole() || Numeral(n.whole) > (if n.minus then MAX_LARGEST_INT + 1 else MAX_LARGEST_UINT) then None
               else if n.minus then Some(Signed64(-(Numeral(n.whole) as int)))
               else if Numeral(n.whole) <= MAX_INT then Some(Signed64(Numeral(n.whole)))
               else Some(Unsigned64(Numeral(n.whole)))
  {
    DigitsAreDigits(n.whole);
    var text := n.Text();
    if n.Whole() {
      assert text == if n.minus then [0x2D] + n.whole else n.whole;
      assert Body(text) == n.whole;
    } else {
      PartsShow(n);
      var i :| 0 <= i < |text| && text[i] in {DOT, LETTER_E, CAPITAL_E};
      NotAnInteger(text, i);
    }
  }

  // ---------- doubles ----------

  /** The decimal comma of the locale becomes a point. */
  function Pointed(s: bytes): (t: bytes)
    ensures |t| == |s| && forall i | 0 <= i < |s| :: t[i] == if s[i] == COMMA then DOT else s[i]
  {
    seq(|s|, i requires 0 <= i < |s| => if s[i] == COMMA then DOT else s[i])
  }

  /** A text that could pass for an integer gets a fraction. */
  function RealText(printed: bytes): bytes {
    var s := Pointed(printed);
    if DOT in s || LETTER_E in s then s else s + [DOT, ZERO]
  }

  /** fixNumericLocale. */
  method FixNumericLocale(buffer: array<byte>, len: nat)
    requires len <= buffer.Length
    modifies buffer
    ensures buffer[..len] == Pointed(old(buffer[..len])) && buffer[len..] == old(buffer[len..])
  {
    var begin := 0;
    while begin < len
      invariant begin <= len
      invariant forall i | 0 <= i < begin :: buffer[i] == if old(buffer[i]) == COMMA then DOT else old(buffer[i])
      invariant forall i | begin <= i < buffer.Length :: buffer[i] == old(buffer[i])
    {
      if buffer[begin] == COMMA {
        buffer[begin] := DOT;
      }
      begin := begin + 1;
    }
  }

  /** valueToString(double), on what snprintf has written. */
  method RealToString(printed: bytes) returns (text: bytes)
    ensures text == RealText(printed)
  {
    var buffer := new byte[|printed|](i requires 0 <= i < |printed| => printed[i]);
    assert buffer[..|printed|] == printed;
    FixNumericLocale(buffer, |printed|);
    text := buffer[..];
    assert text == buffer[..|printed|];
    if DOT !in text && LETTER_E !in text {
      text := text + [DOT, ZERO];
    }
  }

  /** What is asked of the C library: a number, with a comma or a point, and an e in lower case. */
  ghost predicate PrintedNumber(printed: bytes) {
    IsNumber(Pointed(printed)) && CAPITAL_E !in Pointed(printed)
  }

  lemma FractionAdded(n: Parts)
    requires n.Proper() && n.Whole()
    ensures IsNumber(n.Text() + [DOT, ZERO])
  {
    var m := n.(frac := [DOT, ZERO]);
    assert m.frac[1..] == [ZERO];
    assert m.Text() == n.Text() + [DOT, ZERO];
  }

  /** The text of a double is a number, and never that of an integer. */
  lemma RealTextIsNumber(printed: bytes)
    requires PrintedNumber(printed)
    ensures RealText(printed) != [] && IsNumber(RealText(printed)) && DecodeInteger(RealText(printed)) == None
  {
    var s := Pointed(printed);
    if DOT in s || LETTER_E in s {
      var i :| 0 <= i < |s| && s[i] in {DOT, LETTER_E};
      NotAnInteger(s, i);
    } else {
      var n: Parts :| n.Proper() && n.Text() == s;
      PartsShow(n);
      FractionAdded(n);
      NotAnInteger(s + [DOT, ZERO], |s|);
    }
  }
}
