// The integer printer: digit counting, and the backward fill of a fixed buffer two digits at a time.
module Numerals {

  function Digit(n: nat): char
    requires n < 10
  {
    '0' + n as char
  }

  /** The decimal numeral of a number. */
  function Decimal(n: nat): (s: string)
    ensures |s| > 0
  {
    if n < 10 then [Digit(n)] else Decimal(n / 10) + [Digit(n % 10)]
  }

  predicate IsNumeral(s: string) {
    |s| > 0 && forall i | 0 <= i < |s| :: '0' <= s[i] <= '9'
  }

  function DigitValue(c: char): nat
    requires '0' <= c <= '9'
  {
    c as nat - '0' as nat
  }

  /** The number a numeral denotes. */
  function Value(s: string): nat
    requires IsNumeral(s)
  {
    var last := DigitValue(s[|s| - 1]);
    if |s| == 1 then last else Value(s[..|s| - 1]) * 10 + last
  }

  /** The numeral of a number denotes it, and has no zero in front unless it is "0". */
  lemma {:induction false} ValueInvertsDecimal(n: nat)
    ensures IsNumeral(Decimal(n)) && Value(Decimal(n)) == n
    ensures Decimal(n)[0] == '0' ==> n == 0
  {
    if n >= 10 {
      ValueInvertsDecimal(n / 10);
      var d := Decimal(n / 10);
      assert (d + [Digit(n % 10)])[..|d|] == d;
    }
  }

  /** No other numeral without a zero in front denotes it. */
  lemma {:induction false} DecimalInvertsValue(s: string)
    requires IsNumeral(s) && (s[0] == '0' ==> |s| == 1)
    ensures Decimal(Value(s)) == s && (Value(s) == 0 ==> s[0] == '0')
  {
    if |s| > 1 {
      var front, last := s[..|s| - 1], DigitValue(s[|s| - 1]);
      assert front[0] == s[0];
      DecimalInvertsValue(front);
      var n := Value(front) * 10 + last;
      assert n / 10 == Value(front) && n % 10 == last;
      assert s == front + [s[|s| - 1]];
    }
  }

  function Pow10(k: nat): nat {
    if k == 0 then 1 else 10 * Pow10(k - 1)
  }

  lemma {:induction false} DecimalLength(n: nat, k: nat)
    requires k > 0
    ensures |Decimal(n)| <= k <==> n < Pow10(k)
    decreases k
  {
    if k == 1 {
      assert Pow10(1) == 10 * Pow10(0);
    } else if n >= 10 {
      DecimalLength(n / 10, k - 1);
      assert n / 10 < Pow10(k - 1) <==> n < 10 * Pow10(k - 1);
    } else {
      DecimalLength(n, k - 1);
    }
  }

  const UINT64_MAX := 0xFFFF_FFFF_FFFF_FFFF
  const INT64_MIN := -0x8000_0000_0000_0000

  /** Every 64-bit number has at most 20 digits. */
  lemma AtMostTwentyDigits(n: nat)
    requires n <= UINT64_MAX
    ensures |Decimal(n)| <= 20
  {
    assert Pow10(5) == 100_000;
    assert Pow10(10) == 100_000 * Pow10(5);
    assert Pow10(15) == 100_000 * Pow10(10);
    assert Pow10(20) == 100_000 * Pow10(15);
    DecimalLength(n, 20);
  }

  method CountDigits(number: nat) returns (nDigits: nat)
    ensures nDigits == |Decimal(number)|
  {
    nDigits := 1;
    var rest := number;
    while true
      invariant nDigits >= 1 && |Decimal(number)| == nDigits - 1 + |Decimal(rest)|
      decreases rest
    {
      SplitFour(rest);
      if rest < 10 {
        return;
      }
      if rest < 100 {
        return nDigits + 1;
      }
      if rest < 1000 {
        return nDigits + 2;
      }
      if rest < 10000 {
        return nDigits + 3;
      }
      rest := rest / 10000;
      nDigits := nDigits + 4;
    }
  }

  lemma SplitFour(n: nat)
    ensures |Decimal(n)| == if n < 10 then 1 else if n < 100 then 2 else if n < 1000 then 3
                            else if n < 10000 then 4 else 4 + |Decimal(n / 10000)|
  {
    if n >= 10 {
      assert |Decimal(n)| == 1 + |Decimal(n / 10)|;
      if n >= 100 {
        assert |Decimal(n / 10)| == 1 + |Decimal(n / 10 / 10)|;
        if n >= 1000 {
          assert |Decimal(n / 10 / 10)| == 1 + |Decimal(n / 10 / 10 / 10)|;
          if n >= 10000 {
            assert |Decimal(n / 10 / 10 / 10)| == 1 + |Decimal(n / 10 / 10 / 10 / 10)|;
            assert n / 10 / 10 / 10 / 10 == n / 10000;
          }
        }
      }
    }
  }

  /** The pairs "00" to "99". */
  const DIGITS_TO_99: seq<string> := seq(100, i requires 0 <= i < 100 => [Digit(i / 10), Digit(i % 10)])

  lemma SplitTwo(n: nat)
    ensures n >= 100 ==> Decimal(n) == Decimal(n / 100) + DIGITS_TO_99[n % 100]
    ensures 10 <= n < 100 ==> Decimal(n) == DIGITS_TO_99[n]
  {
    if n >= 100 {
      assert Decimal(n) == Decimal(n / 10) + [Digit(n % 10)];
      assert Decimal(n / 10) == Decimal(n / 10 / 10) + [Digit(n / 10 % 10)];
      assert n / 10 / 10 == n / 100 && n / 10 % 10 == n % 100 / 10 && n % 100 % 10 == n % 10;
    }
  }

  /** What the printer shows for a number of either sign. */
  function IntegerText(number: int): string {
    if number < 0 then "-" + Decimal(-number) else Decimal(number)
  }

  /** A text denotes a number: a minus sign in front of a negative one, no zero in front of another digit. */
  predicate IsText(text: string, number: int) {
    text != "" &&
    if number < 0 then
      text[0] == '-' && IsNumeral(text[1..]) && Value(text[1..]) == -number && text[1] != '0'
    else
      IsNumeral(text) && Value(text) == number && (text[0] == '0' ==> text == "0")
  }

  lemma TextIsRead(out: string, number: int)
    ensures out <= out + IntegerText(number) && (out + IntegerText(number))[|out|..] == IntegerText(number)
    ensures IsText(IntegerText(number), number)
  {
    var n := if number < 0 then -number else number;
    ValueInvertsDecimal(n);
    if number < 0 {
      assert ("-" + Decimal(n))[1..] == Decimal(n);
    }
  }

  /** Two digits written backward from a position. */
  method PutTwo(buffer: array<char>, bufferPtr: nat, digits: string, ghost end: nat)
    requires 2 <= bufferPtr <= end <= buffer.Length && |digits| == 2
    modifies buffer
    ensures buffer[bufferPtr - 2..end] == digits + old(buffer[bufferPtr..end])
    ensures forall k | 0 <= k < bufferPtr - 2 :: buffer[k] == old(buffer[k])
  {
    buffer[bufferPtr - 1] := digits[1];
    buffer[bufferPtr - 2] := digits[0];
  }

  lemma Reassociate(a: string, b: string, c: string)
    ensures a + b + c == a + (b + c)
  {
  }

  /** The numeral written backward so that it ends at nChars; it stops exactly where it fits. */
  method FillBackward(buffer: array<char>, nChars: nat, number: nat) returns (bufferPtr: nat)
    requires number > 0 && |Decimal(number)| <= nChars <= buffer.Length
    modifies buffer
    ensures bufferPtr == nChars - |Decimal(number)|
    ensures buffer[bufferPtr..nChars] == Decimal(number)
    ensures forall k | 0 <= k < bufferPtr :: buffer[k] == old(buffer[k])
  {
    bufferPtr := nChars;
    var absValue := number;
    while absValue >= 100
      invariant 0 < absValue
      invariant |Decimal(absValue)| <= bufferPtr <= nChars
      invariant Decimal(absValue) + buffer[bufferPtr..nChars] == Decimal(number)
      invariant forall k | 0 <= k < bufferPtr :: buffer[k] == old(buffer[k])
    {
      SplitTwo(absValue);
      ghost var written := buffer[bufferPtr..nChars];
      var digitsIndex := absValue % 100;
      absValue := absValue / 100;
      PutTwo(buffer, bufferPtr, DIGITS_TO_99[digitsIndex], nChars);
      bufferPtr := bufferPtr - 2;
      Reassociate(Decimal(absValue), DIGITS_TO_99[digitsIndex], written);
    }
    SplitTwo(absValue);
    ghost var written := buffer[bufferPtr..nChars];
    if absValue >= 10 {
      var digitsIndex := absValue;
      PutTwo(buffer, bufferPtr, DIGITS_TO_99[digitsIndex], nChars);
      bufferPtr := bufferPtr - 2;
    } else {
      bufferPtr := bufferPtr - 1;
      buffer[bufferPtr] := '0' + absValue as char;
      assert buffer[bufferPtr..nChars] == Decimal(absValue) + written;
    }
  }

  /** For the smallest 64-bit integer the negation overflows, which is undefined in the source. */
  method DumpInteger(out: string, number: int) returns (out': string)
    requires INT64_MIN < number <= UINT64_MAX
    ensures out' == out + IntegerText(number)
    ensures out <= out' && IsText(out'[|out|..], number)
  {
    TextIsRead(out, number);
    if number == 0 {
      return out + ['0'];
    }
    var numberBuffer := new char[64](_ => '\0');
    var isNegative := number < 0;
    var absValue: nat, nChars: nat;
    if isNegative {
      numberBuffer[0] := '-';
      absValue := 0 - number;
      nChars := CountDigits(absValue);
      nChars := 1 + nChars;
    } else {
      absValue := number;
      nChars := CountDigits(absValue);
    }
    AtMostTwentyDigits(absValue);
    if nChars >= numberBuffer.Length - 1 {
      assert false;
    }
    ghost var sign := if isNegative then "-" else "";
    assert IntegerText(number) == sign + Decimal(absValue);
    assert forall k | 0 <= k < |sign| :: numberBuffer[k] == sign[k];
    var bufferPtr := FillBackward(numberBuffer, nChars, absValue);
    assert numberBuffer[..bufferPtr] == sign;
    assert numberBuffer[..nChars] == numberBuffer[..bufferPtr] + numberBuffer[bufferPtr..nChars];
    out' := out + numberBuffer[..nChars];
  }

  // ---------------------------------------------------------------------------------------------
  // Numerals, spelled out.

  /** The digits, and what one more digit at the end means. */
  lemma ValueIsPositional(s: string, d: nat)
    requires IsNumeral(s) && d < 10
    ensures IsNumeral(s + ["0123456789"[d]]) && Value(s + ["0123456789"[d]]) == 10 * Value(s) + d
    ensures Value(["0123456789"[d]]) == d
  {
    var t := s + ["0123456789"[d]];
    assert t[..|s|] == s;
  }
}
