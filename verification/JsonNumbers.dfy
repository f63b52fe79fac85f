/**
 Integers as decimal text: printing into a fixed buffer from the back, and
 reading without ever leaving the 64-bit range.
 */
module JsonNumbers {
  import opened Wrappers
  import opened Bytes

  const MAX_INT: int := 0x7FFF_FFFF
  const MAX_LARGEST_INT: int := 0x7FFF_FFFF_FFFF_FFFF
  const MAX_LARGEST_UINT: int := 0xFFFF_FFFF_FFFF_FFFF
  /** 3 * sizeof(LargestUInt) + 1. */
  const BUFFER_SIZE: nat := 25

  // ---------- what decimal text means ----------

  predicate AllDigits(s: bytes) {
    forall c | c in s :: IsDigit(c)
  }

  /** The number a string of digits denotes. */
  function Numeral(s: bytes): nat
    requires AllDigits(s)
  {
    if s == [] then 0
    else
      assert s[|s| - 1] in s;
      Numeral(s[..|s| - 1]) * 10 + (s[|s| - 1] as int - ZERO as int)
  }

  /** The decimal digits of a number, without leading zeros. */
  function Decimal(n: nat): (s: bytes)
    ensures s != []
  {
    if n < 10 then [ZERO + n] else Decimal(n / 10) + [ZERO + n % 10]
  }

  lemma {:induction false} DecimalDenotes(n: nat)
    ensures AllDigits(Decimal(n)) && Numeral(Decimal(n)) == n
  {
    if n >= 10 {
      DecimalDenotes(n / 10);
      assert Decimal(n)[..|Decimal(n)| - 1] == Decimal(n / 10);
    }
  }

  lemma {:induction false} DecimalLength(n: nat, k: nat)
    requires k > 0 && n < Pow10(k)
    ensures |Decimal(n)| <= k
  {
    if n >= 10 {
      DecimalLength(n / 10, k - 1);
    }
  }

  function Pow10(k: nat): nat {
    if k == 0 then 1 else 10 * Pow10(k - 1)
  }

  lemma TwentyDigits()
    ensures Pow10(20) > MAX_LARGEST_UINT
  {
    assert Pow10(5) == 100000;
    assert Pow10(10) == 10000000000;
    assert Pow10(15) == 1000000000000000;
  }

  function SignedDecimal(i: int): bytes {
    if i < 0 then [MINUS] + Decimal(-i) else Decimal(i)
  }

  // ---------- printing ----------

  /** One digit moves from the number still to be printed to the text behind it. */
  lemma LastDigit(n: nat, text: bytes, digits: bytes)
    requires Decimal(n) + text == digits
    ensures |text| < |digits|
    ensures if n < 10 then [ZERO + n % 10] + text == digits else Decimal(n / 10) + ([ZERO + n % 10] + text) == digits
  {
    if n >= 10 {
      Associative(Decimal(n / 10), [ZERO + n % 10], text);
    }
  }

  /** uintToString: digits and a terminator, written backwards from `current`. */
  method UintToString(value: nat, buffer: array<byte>, current: nat) returns (start: nat)
    requires value <= MAX_LARGEST_UINT && 21 <= current <= buffer.Length
    modifies buffer
    ensures current - 21 <= start < current
    ensures buffer[start..current - 1] == Decimal(value) && buffer[current - 1] == 0
    ensures forall i | 0 <= i < buffer.Length && !(start <= i < current) :: buffer[i] == old(buffer[i])
  {
    ghost var digits := Decimal(value);
    TwentyDigits();
    DecimalLength(value, 20);
    ghost var text: bytes := [];
    assert digits + text == digits;
    start := current - 1;
    buffer[start] := 0;
    var rest := value;
    while true
      invariant |digits| <= 20 && current - 1 - start == |text|
      invariant 0 <= start < current && buffer[current - 1] == 0
      invariant buffer[start..current - 1] == text
      invariant Decimal(rest) + text == digits
      invariant forall i | 0 <= i < buffer.Length && !(start <= i < current) :: buffer[i] == old(buffer[i])
      decreases rest
    {
      LastDigit(rest, text, digits);
      var digit: byte := ZERO + rest % 10;
      start := start - 1;
      buffer[start] := digit;
      rest := rest / 10;
      assert buffer[start + 1..current - 1] == text;
      text := [digit] + text;
      if rest == 0 {
        break;
      }
    }
  }

  /** valueToString(LargestInt): the text of the C string that starts at the returned position. */
  method ValueToString(value: int) returns (text: bytes)
    requires -MAX_LARGEST_INT - 1 <= value <= MAX_LARGEST_INT
    ensures text == SignedDecimal(value)
  {
    var buffer := new byte[BUFFER_SIZE];
    var current := buffer.Length;
    if value == -MAX_LARGEST_INT - 1 {
      current := UintToString(MAX_LARGEST_INT + 1, buffer, current);
      current := current - 1;
      buffer[current] := MINUS;
    } else if value < 0 {
      current := UintToString(-value, buffer, current);
      current := current - 1;
      buffer[current] := MINUS;
    } else {
      current := UintToString(value, buffer, current);
    }
    text := buffer[current..buffer.Length - 1];
    assert value < 0 ==> text == [MINUS] + buffer[current + 1..buffer.Length - 1];
  }

  /** valueToString(LargestUInt). */
  method UnsignedToString(value: nat) returns (text: bytes)
    requires value <= MAX_LARGEST_UINT
    ensures text == Decimal(value)
  {
    var buffer := new byte[BUFFER_SIZE];
    var current := UintToString(value, buffer, buffer.Length);
    text := buffer[current..buffer.Length - 1];
  }

  // ---------- reading ----------

  datatype Number = Signed64(i: int) | Unsigned64(u: nat)

  function Body(text: bytes): bytes
    requires text != []
  {
    if text[0] == MINUS then text[1..] else text
  }

  /** The largest magnitude an integer token may have. */
  function MaxInteger(text: bytes): nat
    requires text != []
  {
    if text[0] == MINUS then MAX_LARGEST_INT + 1 else MAX_LARGEST_UINT
  }

  /** A token is an integer exactly when it is all digits and in range; a lone minus sign counts as zero. */
  function DecodeInteger(text: bytes): Option<Number>
    requires text != []
  {
    if !AllDigits(Body(text)) || Numeral(Body(text)) > MaxInteger(text) then None
    else if text[0] == MINUS then Some(Signed64(-(Numeral(Body(text)) as int)))
    else if Numeral(text) <= MAX_INT then Some(Signed64(Numeral(text)))
    else Some(Unsigned64(Numeral(text)))
  }

  /** Further digits never make a numeral smaller, and a further place makes it ten times as large. */
  lemma {:induction false} NumeralGrows(s: bytes, k: nat)
    requires AllDigits(s) && k <= |s|
    ensures AllDigits(s[..k]) && Numeral(s) >= Numeral(s[..k])
    ensures k < |s| ==> Numeral(s) >= 10 * Numeral(s[..k])
    decreases |s|
  {
    if k < |s| {
      assert s[|s| - 1] in s;
      NumeralGrows(s[..|s| - 1], k);
      assert s[..|s| - 1][..k] == s[..k];
    } else {
      assert s[..k] == s;
    }
  }

  /** decodeNumber: the threshold test keeps every intermediate value within 64 bits. */
  method DecodeNumber(text: bytes) returns (decoded: Option<Number>)
    requires text != []
    ensures decoded == DecodeInteger(text)
  {
    var isNegative := text[0] == MINUS;
    var current := if isNegative then 1 else 0;
    var maxIntegerValue := if isNegative then MAX_LARGEST_INT + 1 else MAX_LARGEST_UINT;
    var threshold := maxIntegerValue / 10;
    var value := 0;
    ghost var body := Body(text);
    ghost var k := 0;
    while current < |text|
      invariant k <= |body| && current == k + |text| - |body|
      invariant AllDigits(body[..k]) && value == Numeral(body[..k]) && value <= maxIntegerValue
    {
      var c := text[current];
      current := current + 1;
      assert c == body[k];
      if !IsDigit(c) {
        assert body[k] in body;
        return None;
      }
      var digit := c - ZERO;
      assert body[..k + 1][..k] == body[..k];
      assert Numeral(body[..k + 1]) == value * 10 + digit as int;
      if value >= threshold {
        if value > threshold || current != |text| || digit as int > maxIntegerValue % 10 {
          if AllDigits(body) {
            TooLarge(body, k, value, maxIntegerValue);
          }
          return None;
        }
      }
      value := value * 10 + digit as int;
      k := k + 1;
    }
    assert body[..k] == body;
    if isNegative {
      decoded := Some(Signed64(-value));
    } else if value <= MAX_INT {
      decoded := Some(Signed64(value));
    } else {
      decoded := Some(Unsigned64(value));
    }
  }

  lemma TooLarge(body: bytes, k: nat, value: nat, max: nat)
    requires AllDigits(body) && k < |body| && value == Numeral(body[..k]) && value >= max / 10 >= 1
    requires value > max / 10 || k + 1 != |body| || body[k] as int - ZERO as int > max % 10
    ensures Numeral(body) > max
  {
    assert body[..k + 1][..k] == body[..k];
    assert body[k] in body;
    NumeralGrows(body, k + 1);
    if k + 1 == |body| { assert body[..k + 1] == body; }
  }

  // ---------- one undoes the other ----------

  lemma DecodeDigits(d: bytes, n: nat)
    requires d != [] && AllDigits(d) && Numeral(d) == n <= MAX_LARGEST_UINT
    ensures DecodeInteger(d) == Some(if n <= MAX_INT then Signed64(n) else Unsigned64(n))
    ensures n <= MAX_LARGEST_INT + 1 ==> DecodeInteger([MINUS] + d) == Some(Signed64(-(n as int)))
  {
    assert d[0] in d;
    assert ([MINUS] + d)[1..] == d;
  }

  /** Every 64-bit integer is read back from its text, as the kind the reader picks. */
  lemma IntegerRoundTrip(i: int)
    requires -MAX_LARGEST_INT - 1 <= i <= MAX_LARGEST_UINT
    ensures DecodeInteger(SignedDecimal(i)) == Some(if i <= MAX_INT then Signed64(i) else Unsigned64(i))
  {
    var n: nat := if i < 0 then -i else i;
    DecimalDenotes(n);
    DecodeDigits(Decimal(n), n);
  }
}
