/** Integers of the JSON library: uintToString, valueToString and Reader::decodeNumber. */
module JsonNumbers {
  import opened JsonValue
  import opened Sequences

  newtype UInt64 = x: int | 0 <= x <= 0xFFFF_FFFF_FFFF_FFFF

  // ---------- Decimal notation ----------

  predicate IsDigit(c: char) { '0' <= c <= '9' }

  predicate IsDigits(t: string) { forall i | 0 <= i < |t| :: IsDigit(t[i]) }

  function DigitChar(d: int): char
    requires 0 <= d <= 9
  {
    ('0' as int + d) as char
  }

  function DigitValue(c: char): nat
    requires IsDigit(c)
  {
    c as int - '0' as int
  }

  const DECIMALS := "0123456789"

  lemma DecimalsExactly(c: char, d: nat)
    requires d < 10
    ensures (IsDigit(c) && DigitValue(c) == d) <==> c == DECIMALS[d]
    ensures DigitChar(d) == DECIMALS[d]
  {
  }

  function Digits(n: nat): string {
    if n < 10 then [DigitChar(n)] else Digits(n / 10) + [DigitChar(n % 10)]
  }

  /** The number a digit string denotes; the empty string denotes 0. */
  function DigitsValue(t: string): nat
    requires IsDigits(t)
  {
    if t == [] then 0 else DigitsValue(t[..|t| - 1]) * 10 + DigitValue(t[|t| - 1])
  }

  function IntText(n: int): string {
    if n < 0 then "-" + Digits(-n) else Digits(n)
  }

  /** `t` is the number `n` in decimal digits, with any number of leading zeros. */
  ghost predicate DecimalSpells(t: string, n: nat) {
    if t == [] then n == 0 else DecimalSpells(t[..|t| - 1], n / 10) && t[|t| - 1] == DECIMALS[n % 10]
  }

  lemma {:induction false} DigitsValueExactly(t: string, n: nat)
    ensures DecimalSpells(t, n) <==> IsDigits(t) && DigitsValue(t) == n
    decreases |t|
  {
    if t != [] {
      var k := |t| - 1;
      DigitsValueExactly(t[..k], n / 10);
      DecimalsExactly(t[k], n % 10);
      if IsDigits(t) {
        assert IsDigit(t[k]) && IsDigits(t[..k]);
      }
      if DecimalSpells(t, n) {
        assert forall i | 0 <= i < |t| :: t[i] == if i < k then t[..k][i] else t[k];
      }
    }
  }

  lemma {:induction false} NoLeadingZero(n: nat)
    ensures n > 0 ==> Digits(n)[0] != '0'
    ensures n == 0 ==> Digits(n) == "0"
  {
    if n >= 10 { NoLeadingZero(n / 10); }
  }

  /** The printed text is a minus sign for a negative number and its digits, without leading zeros. */
  lemma PrintedExactly(n: int)
    ensures var t := IntText(n);
            var digits := if n < 0 then t[1..] else t;
            && (n < 0 ==> t[0] == '-') && DecimalSpells(digits, if n < 0 then -n else n)
            && digits != [] && (digits[0] == '0' ==> digits == "0")
  {
    hide Digits;
    var m := if n < 0 then -n else n;
    DigitsDenote(m);
    DigitsValueExactly(Digits(m), m);
    NoLeadingZero(m);
    assert ("-" + Digits(m))[1..] == Digits(m);
  }

  lemma {:induction false} DigitsDenote(n: nat)
    ensures Digits(n) != [] && IsDigits(Digits(n)) && DigitsValue(Digits(n)) == n
  {
    if n >= 10 {
      DigitsDenote(n / 10);
      var t := Digits(n);
      assert t[..|t| - 1] == Digits(n / 10);
    } else {
      assert Digits(n)[..0] == [];
    }
  }

  /** Ten to the k-th bounds every number of k digits. */
  function Pow10(k: nat): nat {
    if k == 0 then 1 else 10 * Pow10(k - 1)
  }

  lemma {:induction false} DigitsLength(n: nat, k: nat)
    requires k > 0 && n < Pow10(k)
    ensures |Digits(n)| <= k
  {
    if n >= 10 {
      assert k > 1;
      DigitsLength(n / 10, k - 1);
    }
  }

  lemma UInt64HasTwentyDigits(n: nat)
    requires n <= MAX_UINT64
    ensures |Digits(n)| <= 20
    ensures n <= -MIN_INT64 ==> |Digits(n)| <= 19
  {
    assert Pow10(5) == 100_000;
    assert Pow10(10) == 100_000 * Pow10(5);
    assert Pow10(15) == 100_000 * Pow10(10);
    assert Pow10(19) == 10_000 * Pow10(15);
    assert Pow10(20) == 10 * Pow10(19);
    DigitsLength(n, 20);
    if n <= -MIN_INT64 { DigitsLength(n, 19); }
  }

  // ---------- Printing into the 25-byte buffer ----------

  const BUFFER_SIZE := 25

  /** The last digit, moved from a number to the text behind it. */
  lemma LastDigitMoves(n: nat, tail: string)
    ensures |Digits(n)| == 1 + if n < 10 then 0 else |Digits(n / 10)|
    ensures Digits(n) + tail == (if n < 10 then [] else Digits(n / 10)) + ([DigitChar(n % 10)] + tail)
  {
    var front := if n < 10 then [] else Digits(n / 10);
    assert Digits(n) == front + [DigitChar(n % 10)];
    assert front + [DigitChar(n % 10)] + tail == front + ([DigitChar(n % 10)] + tail);
  }

  /** Writes the terminator and then the digits backwards, ending at the returned index. */
  method UintToString(value: UInt64, buffer: array<char>, start: nat) returns (current: nat)
    requires start <= buffer.Length && start > |Digits(value as int)|
    modifies buffer
    ensures current == start - 1 - |Digits(value as int)|
    ensures buffer[current..start] == Digits(value as int) + ['\0']
  {
    hide Digits, DigitChar;
    var v := value;
    current := start - 1;
    buffer[current] := '\0';
    ghost var tail := ['\0'];
    assert buffer[current..start] == tail;
    var more := true;
    while more
      invariant 0 < start <= buffer.Length && current < start
      invariant more ==> current >= |Digits(v as int)|
      invariant buffer[current..start] == tail
      invariant Digits(value as int) + ['\0'] == (if more then Digits(v as int) else []) + tail
      decreases more, v
    {
      LastDigitMoves(v as int, tail);
      var digit := DigitChar((v % 10) as int);
      current := current - 1;
      buffer[current] := digit;
      assert buffer[current..start] == [digit] + buffer[current + 1..start];
      tail := [digit] + tail;
      v := v / 10;
      more := v != 0;
    }
    assert |buffer[current..start]| == start - current;
  }

  /** valueToString(LargestUInt): the buffer is never overrun. */
  method UnsignedToString(value: UInt64) returns (buffer: array<char>, current: nat)
    ensures fresh(buffer) && buffer.Length == 25
    ensures 4 <= current <= buffer.Length && CString(buffer[current..]) == IntText(value as int)
  {
    buffer := new char[BUFFER_SIZE];
    UInt64HasTwentyDigits(value as int);
    DigitsDenote(value as int);
    current := UintToString(value, buffer, BUFFER_SIZE);
    assert buffer[current..] == buffer[current..BUFFER_SIZE];
    DigitsTerminated(Digits(value as int));
  }

  function Magnitude(n: int): nat {
    if n < 0 then -n else n
  }

  /** The 64-bit word left by negating a negative integer in place: in two's complement the
      minimum is its own negation and reads as 2^63. */
  function NegatedWord(n: LargestInt): (u: UInt64)
    ensures u as int == Magnitude(n)
  {
    var negated := if n == MIN_INT64 then MIN_INT64 else if n < 0 then -n else n;
    (if negated < 0 then negated + 0x1_0000_0000_0000_0000 else negated) as UInt64
  }

  /** valueToString(LargestInt), the minimum included. */
  method SignedToString(value: LargestInt) returns (buffer: array<char>, current: nat)
    ensures fresh(buffer) && buffer.Length == 25
    ensures 4 <= current <= buffer.Length && CString(buffer[current..]) == IntText(value)
  {
    buffer := new char[BUFFER_SIZE];
    var isNegative := value < 0;
    var word := NegatedWord(value);
    UInt64HasTwentyDigits(Magnitude(value));
    DigitsDenote(Magnitude(value));
    hide Digits, CString;
    current := UintToString(word, buffer, BUFFER_SIZE);
    ghost var text := Digits(Magnitude(value));
    if isNegative {
      current := current - 1;
      label unsigned:
      buffer[current] := '-';
      assert buffer[current + 1..BUFFER_SIZE] == old@unsigned(buffer[current + 1..BUFFER_SIZE]) == text + ['\0'];
      assert buffer[current..] == ['-'] + buffer[current + 1..BUFFER_SIZE];
      SignedText(text);
    } else {
      assert buffer[current..] == buffer[current..BUFFER_SIZE];
      DigitsTerminated(text);
    }
  }

  lemma DigitsTerminated(t: string)
    requires IsDigits(t)
    ensures CString(t + ['\0']) == t
  {
    CStringOfTerminated(t, "");
    assert t + ['\0'] + "" == t + ['\0'];
  }

  lemma SignedText(t: string)
    requires IsDigits(t)
    ensures CString(['-'] + (t + ['\0'])) == "-" + t
  {
    assert ['-'] + (t + ['\0']) == "-" + t + ['\0'];
    assert forall i | 0 <= i < |t| :: t[i] != '\0';
    CStringOfTerminated("-" + t, "");
    assert "-" + t + ['\0'] + "" == "-" + t + ['\0'];
  }

  // ---------- Decoding ----------

  datatype Decoded = Integer(value: Value) | GoesToDouble

  /** What a number token denotes: exactly the integers of [-2^63, 2^64-1] stay integers. */
  function DecodeNumber(t: string): Decoded
    requires t != []
  {
    var digits := if t[0] == '-' then t[1..] else t;
    if !IsDigits(digits) then GoesToDouble
    else
      var magnitude: int := DigitsValue(digits);
      var n := if t[0] == '-' then -magnitude else magnitude;
      if n < MIN_INT64 || n > MAX_UINT64 then GoesToDouble
      else Integer(if t[0] == '-' then Int(n) else Retagged(n))
  }

  /** A token of an optional minus and digits is read as the number they spell, a signed integer when it
      is negative or below 2^31 and an unsigned one otherwise, unless it does not fit into 64 bits. */
  lemma DecodeExactly(sign: string, digits: string, n: nat)
    requires (sign == "" || sign == "-") && sign + digits != "" && DecimalSpells(digits, n)
    ensures DecodeNumber(sign + digits) ==
              if sign == "-" then if n <= 9223372036854775808 then Integer(Int(-(n as int))) else GoesToDouble
              else if n <= 2147483647 then Integer(Int(n))
              else if n <= 18446744073709551615 then Integer(UInt(n))
              else GoesToDouble
  {
    hide DecimalSpells, DigitsValue;
    var t := sign + digits;
    DigitsValueExactly(digits, n);
    if sign == "" {
      assert t == digits && IsDigit(digits[0]);
    } else {
      assert t[1..] == digits;
    }
  }

  /** Every other token is left to the conversion of doubles. */
  lemma IntegersAreSpelled(t: string)
    requires t != [] && DecodeNumber(t).Integer?
    ensures var digits := if t[0] == '-' then t[1..] else t; exists n :: DecimalSpells(digits, n)
  {
    hide DecimalSpells, DigitsValue;
    var digits := if t[0] == '-' then t[1..] else t;
    DigitsValueExactly(digits, DigitsValue(digits));
  }

  /** The type tag the reader gives an integer. */
  function Retagged(n: int): Value
    requires MIN_INT64 <= n <= MAX_UINT64
  {
    if n <= MAX_INT then Int(n) else UInt(n)
  }

  lemma {:induction false} PrefixValue(t: string, k: nat)
    requires IsDigits(t) && k <= |t|
    ensures DigitsValue(t) >= DigitsValue(t[..k])
    ensures k < |t| ==> DigitsValue(t) >= 10 * DigitsValue(t[..k])
    decreases |t|
  {
    if k < |t| {
      PrefixValue(t[..|t| - 1], k);
      assert t[..|t| - 1][..k] == t[..k];
    } else {
      assert t[..k] == t;
    }
  }

  lemma NextDigit(t: string, k: nat)
    requires k < |t| && IsDigit(t[k]) && IsDigits(t[..k])
    ensures IsDigits(t[..k + 1]) && DigitsValue(t[..k + 1]) == DigitsValue(t[..k]) * 10 + DigitValue(t[k])
  {
    assert t[..k + 1][..k] == t[..k];
    assert forall i | 0 <= i < k + 1 :: t[..k + 1][i] == if i < k then t[..k][i] else t[k];
  }

  lemma NotADigit(t: string, k: nat)
    requires k < |t| && !IsDigit(t[k])
    ensures !IsDigits(t)
  {
  }

  lemma NoDigits()
    ensures IsDigits("") && DigitsValue("") == 0
  {
  }

  /** Reader::decodeNumber on a token; the accumulator is a 64-bit word and cannot overflow. */
  method DecodeNumberToken(token: string) returns (r: Decoded)
    requires token != []
    ensures r == DecodeNumber(token)
  {
    hide DigitsValue, IsDigits;
    NoDigits();
    var current := 0;
    var isNegative := token[current] == '-';
    if isNegative { current := current + 1; }
    var maxIntegerValue: UInt64 := if isNegative then 0x8000_0000_0000_0000 else 0xFFFF_FFFF_FFFF_FFFF;
    var threshold := maxIntegerValue / 10;
    var value: UInt64 := 0;
    ghost var digits := token[current..];
    ghost var sign := current;
    while current < |token|
      invariant sign <= current <= |token|
      invariant IsDigits(digits[..current - sign])
      invariant value as int == DigitsValue(digits[..current - sign])
      invariant value <= maxIntegerValue
    {
      var c := token[current];
      ghost var k := current - sign;
      current := current + 1;
      if c < '0' || c > '9' {
        NotADigit(digits, k);
        return GoesToDouble;
      }
      var digit := (c as int - '0' as int) as UInt64;
      NextDigit(digits, k);
      if value >= threshold {
        if value > threshold || current != |token| || digit > maxIntegerValue % 10 {
          if IsDigits(digits) {
            PrefixValue(digits, k + 1);
          }
          return GoesToDouble;
        }
      }
      value := value * 10 + digit;
    }
    assert digits[..current - sign] == digits;
    if isNegative {
      r := Integer(Int(-(value as int)));
    } else if value as int <= MAX_INT {
      r := Integer(Int(value as int));
    } else {
      r := Integer(UInt(value as int));
    }
  }

  /** Reading undoes printing, over the whole 64-bit range. */
  lemma PrintedIntegerDecodes(n: int)
    requires MIN_INT64 <= n <= MAX_UINT64
    ensures DecodeNumber(IntText(n)) == Integer(Retagged(n))
  {
    DigitsDenote(if n < 0 then -n else n);
    if n < 0 {
      assert IntText(n)[1..] == Digits(-n);
    }
  }
}
